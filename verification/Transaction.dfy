// Begin, attach, detach, commit and abort: the transaction that patches code and restores it.
module Transaction {
  import opened CStrings
  import opened JumpEncoding
  import opened Prologue
  import opened Seqs
  import opened X86Relocation

  // The memory that is patched, byte by byte.
  type Memory = map<int, Byte>

  // head is the record from rbCode to the end of rbRestore, align the eight entries of rAlign.
  datatype Trampoline = Trampoline(
    head: seq<Byte>, cbRestore: nat, align: seq<Align>, pbRemain: int, pbDetour: int, rbCodeIn: seq<Byte>)

  datatype Operation = Operation(isAdd: bool, isRemove: bool, pointer: int, target: int, trampoline: int)

  // The thread that owns the transaction (0 for none), the code, the live trampolines by address,
  // the hooked pointer variables by address, and the pending operations, the latest first.
  datatype State = State(
    owner: int, code: Memory, slots: map<int, Trampoline>, pointers: map<int, int>, pending: seq<Operation>)

  // As much of the code as the first instructions of a function may take.
  const WINDOW: nat := 32

  predicate Mapped(code: Memory, at: int, n: nat) {
    forall a :: at <= a < at + n ==> a in code
  }

  function Read(code: Memory, at: int, n: nat): (b: seq<Byte>)
    requires Mapped(code, at, n)
    ensures |b| == n && forall i :: 0 <= i < n ==> b[i] == code[at + i]
  {
    seq(n, i requires 0 <= i < n => code[at + i])
  }

  function Write(code: Memory, at: int, b: seq<Byte>): (r: Memory)
    requires Mapped(code, at, |b|)
    ensures r.Keys == code.Keys
    ensures forall a <- code :: r[a] == if at <= a < at + |b| then b[a - at] else code[a]
  {
    map a | a in code :: if at <= a < at + |b| then b[a - at] else code[a]
  }

  // The first cbRestore bytes of rbRestore.
  function Restored(tr: Trampoline): (b: seq<Byte>)
    requires |tr.head| == HEAD_SIZE && tr.cbRestore <= RESTORE_SIZE
    ensures |b| == tr.cbRestore
  {
    tr.head[RESTORE_OFFSET..RESTORE_OFFSET + tr.cbRestore]
  }

  ghost predicate SlotOk(code: Memory, tr: Trampoline) {
    && SIZE_OF_JMP <= tr.cbRestore <= CODE_SIZE - SIZE_OF_JMP && |tr.head| == HEAD_SIZE && |tr.rbCodeIn| == 8
    && |tr.align| == ALIGN_COUNT
    && Mapped(code, tr.pbRemain - tr.cbRestore, tr.cbRestore)
  }

  ghost predicate SlotsOk(code: Memory, slots: map<int, Trampoline>) {
    forall k <- slots :: SlotOk(code, slots[k])
  }

  ghost predicate OperationOk(s: State, o: Operation) {
    && o.trampoline in s.slots && o.pointer in s.pointers && o.isAdd == !o.isRemove
    && o.target == s.slots[o.trampoline].pbRemain - s.slots[o.trampoline].cbRestore
  }

  // What every step keeps: each trampoline holds what it took from mapped code, and a pending
  // operation is about a live trampoline and the place that it is for.
  ghost predicate Valid(s: State) {
    && SlotsOk(s.code, s.slots)
    && (forall o <- s.pending :: OperationOk(s, o))
  }

  // ---------- The steps ----------

  function Begin(s: State, thread: int): (r: (Status, State))
    requires Valid(s)
    ensures Valid(r.1)
  {
    if s.owner != 0 then (Conflict, s) else (Success, s.(owner := thread, pending := []))
  }

  // SlimDetoursAttach(), with the trampoline that the allocator found. The pointer is taken to be
  // the function itself.
  function Attach(s: State, t: Table, thread: int, pointer: int, detour: int, slot: Option<int>): (r: (Status, State))
    requires Valid(s) && pointer in s.pointers && Mapped(s.code, s.pointers[pointer], WINDOW)
    requires slot.Some? ==> slot.value !in s.slots
    requires slot.Some? ==> Prepare(t, Read(s.code, s.pointers[pointer], WINDOW), s.pointers[pointer], slot.value).Some?
    ensures Valid(r.1)
  {
    var target := s.pointers[pointer];
    if s.owner != thread then (Conflict, s)
    else if detour == target then (InvalidParameter, s)
    else if slot == None then (NoMemory, s)
    else
      var window := Read(s.code, target, WINDOW);
      match Prepare(t, window, target, slot.value).value
      case Failed(status) => (status, s)
      case Prepared(moved, taken) =>
        var ends := EndsFrom(t, window, 0, 0, slot.value - target, 0);
        var tr := Trampoline(Head(moved.bytes, window[..taken], slot.value), taken, AlignTable(ends), target + taken, detour, Brk(8));
        (Success, s.(slots := s.slots[slot.value := tr],
                     pending := [Operation(true, false, pointer, target, slot.value)] + s.pending))
  }

  function Detach(s: State, thread: int, pointer: int, detour: int): (r: (Status, State))
    requires Valid(s) && pointer in s.pointers && s.pointers[pointer] in s.slots
    ensures Valid(r.1)
  {
    var slot := s.pointers[pointer];
    var tr := s.slots[slot];
    if s.owner != thread then (Conflict, s)
    else if tr.cbRestore == 0 || tr.cbRestore > CODE_SIZE || tr.pbDetour != detour then (InvalidBlockLength, s)
    else (Success, s.(pending := [Operation(false, true, pointer, tr.pbRemain - tr.cbRestore, slot)] + s.pending))
  }

  // The jumps still point where this hook's commit made them point.
  predicate HookIsStillThere(s: State, o: Operation)
    requires o.trampoline in s.slots && |s.slots[o.trampoline].rbCodeIn| == 8 && Mapped(s.code, o.target, SIZE_OF_JMP)
  {
    var at := o.trampoline + CODE_IN_OFFSET;
    && IsJmpImmediateTo(Read(s.code, o.target, SIZE_OF_JMP), o.target, at)
    && IsJmpIndirectTo(s.slots[o.trampoline].rbCodeIn, at, o.trampoline + DETOUR_OFFSET)
  }

  // What an add leaves in rbCodeIn, and over the code.
  function CodeIn(slot: int): (b: seq<Byte>)
    ensures |b| == 8
  {
    JmpIndirect(slot + CODE_IN_OFFSET, slot + DETOUR_OFFSET) + Brk(2)
  }

  function Patch(target: int, slot: int, taken: nat): (b: seq<Byte>)
    requires taken >= SIZE_OF_JMP
    ensures |b| == taken
  {
    JmpImmediate(target, slot + CODE_IN_OFFSET) + Brk(taken - SIZE_OF_JMP)
  }

  lemma SlotsStay(code: Memory, patched: Memory, slots: map<int, Trampoline>, slot: int, tr: Trampoline)
    requires code.Keys == patched.Keys && SlotsOk(code, slots) && SlotOk(code, tr)
    ensures SlotsOk(patched, slots) && SlotsOk(patched, slots[slot := tr])
  {
    var more := slots[slot := tr];
    forall k <- more ensures SlotOk(patched, more[k]) {
      assert k != slot ==> SlotOk(code, slots[k]);
    }
    forall k <- slots ensures SlotOk(patched, slots[k]) {
      assert SlotOk(code, slots[k]);
    }
  }

  // One turn of the first loop of the commit; the operation may be changed as well.
  function CommitOne(s: State, o: Operation): (r: (State, Operation))
    requires SlotsOk(s.code, s.slots) && OperationOk(s, o)
    ensures SlotsOk(r.0.code, r.0.slots)
    ensures forall q :: OperationOk(s, q) ==> OperationOk(r.0, q)
    ensures r.0.pending == s.pending && r.0.owner == s.owner && r.0.slots.Keys == s.slots.Keys && r.1.trampoline == o.trampoline
  {
    var tr := s.slots[o.trampoline];
    assert SlotOk(s.code, tr);
    if o.isRemove then
      var pointers := s.pointers[o.pointer := o.target];
      if HookIsStillThere(s, o) then
        var restored := Write(s.code, o.target, Restored(tr));
        SlotsStay(s.code, restored, s.slots, o.trampoline, tr);
        (s.(code := restored, pointers := pointers), o)
      else
        var bypass := tr.(pbDetour := o.trampoline);
        SlotsStay(s.code, s.code, s.slots, o.trampoline, bypass);
        (s.(slots := s.slots[o.trampoline := bypass], pointers := pointers), o.(isRemove := false))
    else
      var armed := tr.(rbCodeIn := CodeIn(o.trampoline));
      var patched := Write(s.code, o.target, Patch(o.target, o.trampoline, tr.cbRestore));
      SlotsStay(s.code, patched, s.slots, o.trampoline, armed);
      (s.(code := patched, slots := s.slots[o.trampoline := armed], pointers := s.pointers[o.pointer := o.trampoline]), o)
  }

  function CommitAll(s: State, os: seq<Operation>): (r: (State, seq<Operation>))
    requires SlotsOk(s.code, s.slots) && forall o <- os :: OperationOk(s, o)
    ensures SlotsOk(r.0.code, r.0.slots)
    ensures r.0.slots.Keys == s.slots.Keys && forall o <- r.1 :: o.trampoline in r.0.slots
    decreases |os|
  {
    if os == [] then (s, [])
    else
      var (next, o) := CommitOne(s, os[0]);
      var (last, rest) := CommitAll(next, os[1..]);
      (last, [o] + rest)
  }

  // The trampolines of the operations that are still removals.
  function Freed(os: seq<Operation>, adds: bool): set<int> {
    set o <- os | (if adds then o.isAdd else o.isRemove) :: o.trampoline
  }

  function Commit(s: State, thread: int): (r: (Status, State))
    requires Valid(s)
    ensures Valid(r.1)
  {
    if s.owner != thread then (Conflict, s)
    else
      var (last, os) := CommitAll(s, s.pending);
      (Success, last.(slots := last.slots - Freed(os, false), owner := 0, pending := []))
  }

  function Abort(s: State, thread: int): (r: (Status, State))
    requires Valid(s)
    ensures Valid(r.1)
  {
    if s.owner != thread then (Conflict, s)
    else (Success, s.(slots := s.slots - Freed(s.pending, true), owner := 0, pending := []))
  }

  // ---------- Threads that are suspended meanwhile ----------

  // detour_align_from_target() and detour_align_from_trampoline(): the first entry that matches.
  function FromTarget(b: seq<Align>, obTarget: nat): nat {
    if b == [] then 0 else if b[0].obTarget == obTarget then b[0].obTrampoline else FromTarget(b[1..], obTarget)
  }

  function FromTrampoline(b: seq<Align>, obTrampoline: nat): nat {
    if b == [] then 0 else if b[0].obTrampoline == obTrampoline then b[0].obTarget else FromTrampoline(b[1..], obTrampoline)
  }

  // detour_thread_update(): where a thread that stands at pc goes on after the commit of these
  // operations.
  function Redirect(slots: map<int, Trampoline>, os: seq<Operation>, pc: int): int
    requires forall o <- os :: o.trampoline in slots
  {
    if os == [] then pc
    else
      var o, tr := os[0], slots[os[0].trampoline];
      if o.isRemove then
        if o.trampoline <= pc < o.trampoline + CODE_SIZE then o.target + FromTrampoline(tr.align, pc - o.trampoline)
        else if pc == o.trampoline + CODE_IN_OFFSET then o.target
        else Redirect(slots, os[1..], pc)
      else if o.isAdd && o.target <= pc < o.target + tr.cbRestore then
        o.trampoline + FromTarget(tr.align, pc - o.target)
      else Redirect(slots, os[1..], pc)
  }

  function Redirected(slots: map<int, Trampoline>, os: seq<Operation>, pcs: seq<int>): (r: seq<int>)
    requires forall o <- os :: o.trampoline in slots
    ensures |r| == |pcs|
  {
    seq(|pcs|, i requires 0 <= i < |pcs| => Redirect(slots, os, pcs[i]))
  }

  lemma BrkIs(n: nat, b: seq<Byte>)
    requires |b| == n && forall i :: 0 <= i < n ==> b[i] == BRK
    ensures b == Brk(n)
  {
  }

  // ---------- The engine ----------

  // The statics of the transaction code and the memory that it works on.
  class Engine {
    var owner: int
    var code: Memory
    var slots: map<int, Trampoline>
    var pointers: map<int, int>
    var pending: seq<Operation>

    ghost function Current(): State
      reads this
    {
      State(owner, code, slots, pointers, pending)
    }

    constructor (code: Memory, pointers: map<int, int>)
      ensures Current() == State(0, code, map[], pointers, [])
    {
      owner, this.code, slots, this.pointers, pending := 0, code, map[], pointers, [];
    }

    method TransactionBegin(thread: int) returns (status: Status)
      requires Valid(Current())
      modifies this
      ensures (status, Current()) == Begin(old(Current()), thread)
    {
      if owner != 0 {
        return Conflict;
      }
      owner, pending := thread, [];
      return Success;
    }

    method AttachHook(t: Table, thread: int, pointer: int, detour: int, slot: Option<int>) returns (status: Status)
      requires Valid(Current()) && pointer in pointers && Mapped(code, pointers[pointer], WINDOW)
      requires slot.Some? ==> slot.value !in slots
      requires slot.Some? ==> Prepare(t, Read(code, pointers[pointer], WINDOW), pointers[pointer], slot.value).Some?
      modifies this
      ensures (status, Current()) == Attach(old(Current()), t, thread, pointer, detour, slot)
    {
      hide Prepare, Head, EndsFrom, Brk, Valid, SlotOk, OperationOk;
      if owner != thread {
        return Conflict;
      }
      var target := pointers[pointer];
      if detour == target {
        return InvalidParameter;
      }
      if slot == None {
        return NoMemory;
      }
      var window := Read(code, target, WINDOW);
      var align := new Align[ALIGN_COUNT](i => NO_ALIGN);
      assert align[..] == AlignTable([]);
      var prepared := MoveInstructions(t, window, target, slot.value, align);
      if prepared.value.Failed? {
        return prepared.value.status;
      }
      var taken := prepared.value.taken;
      var head := new Byte[HEAD_SIZE](i => BRK);
      assert head[..] == Brk(HEAD_SIZE) by { BrkIs(HEAD_SIZE, head[..]); }
      LayOut(head, prepared.value.moved.bytes, window[..taken], slot.value);
      slots := slots[slot.value := Trampoline(head[..], taken, align[..], target + taken, detour, Brk(8))];
      pending := [Operation(true, false, pointer, target, slot.value)] + pending;
      return Success;
    }

    method DetachHook(thread: int, pointer: int, detour: int) returns (status: Status)
      requires Valid(Current()) && pointer in pointers && pointers[pointer] in slots
      modifies this
      ensures (status, Current()) == Detach(old(Current()), thread, pointer, detour)
    {
      if owner != thread {
        return Conflict;
      }
      var slot := pointers[pointer];
      var tr := slots[slot];
      if tr.cbRestore == 0 || tr.cbRestore > CODE_SIZE || tr.pbDetour != detour {
        return InvalidBlockLength;
      }
      pending := [Operation(false, true, pointer, tr.pbRemain - tr.cbRestore, slot)] + pending;
      return Success;
    }

    // Patches or restores the code for one operation, and may take back that it is a removal.
    method CommitOperation(o: Operation) returns (after: Operation)
      requires SlotsOk(code, slots) && OperationOk(Current(), o)
      modifies this`code, this`slots, this`pointers
      ensures (Current(), after) == CommitOne(old(Current()), o)
    {
      var tr := slots[o.trampoline];
      assert SlotOk(code, tr);
      after := o;
      if o.isRemove {
        var at := o.trampoline + CODE_IN_OFFSET;
        var hookIsStillThere := IsJmpImmediateTo(Read(code, o.target, SIZE_OF_JMP), o.target, at)
          && IsJmpIndirectTo(tr.rbCodeIn, at, o.trampoline + DETOUR_OFFSET);
        if hookIsStillThere {
          code := Write(code, o.target, Restored(tr));
        } else {
          after := o.(isRemove := false);
          slots := slots[o.trampoline := tr.(pbDetour := o.trampoline)];
        }
        pointers := pointers[o.pointer := o.target];
      } else {
        slots := slots[o.trampoline := tr.(rbCodeIn := CodeIn(o.trampoline))];
        code := Write(code, o.target, Patch(o.target, o.trampoline, tr.cbRestore));
        pointers := pointers[o.pointer := o.trampoline];
      }
    }

    // The first loop of the commit.
    method CommitOperations() returns (done: seq<Operation>)
      requires SlotsOk(code, slots) && forall o <- pending :: OperationOk(Current(), o)
      modifies this`code, this`slots, this`pointers
      ensures (Current(), done) == CommitAll(old(Current()), old(pending))
    {
      hide CommitOne, CommitAll, SlotsOk, OperationOk;
      ghost var start := Current();
      done := [];
      Whole(pending);
      ContinuedStart(start, pending);
      for i := 0 to |pending|
        invariant SlotsOk(code, slots) && forall o <- pending[i..] :: OperationOk(Current(), o)
        invariant Continued(start, pending, done, Current(), pending[i..])
      {
        Next(pending, i);
        ghost var before := Current();
        var after := CommitOperation(pending[i]);
        ContinuedStep(start, pending, done, before, Current(), pending[i..], after);
        done := done + [after];
      }
      ContinuedEnd(start, pending, done, Current());
    }

    // The last loop of the commit, and that of the abort.
    method FreeTrampolines(os: seq<Operation>, adds: bool)
      modifies this`slots
      ensures slots == old(slots) - Freed(os, adds)
    {
      for i := 0 to |os|
        invariant slots == old(slots) - Freed(os[..i], adds)
      {
        FreedStep(os, i, adds);
        if if adds then os[i].isAdd else os[i].isRemove {
          slots := slots - {os[i].trampoline};
        }
      }
      Whole(os);
    }

    method AlignFromTarget(b: seq<Align>, obTarget: nat) returns (obTrampoline: nat)
      ensures obTrampoline == FromTarget(b, obTarget)
    {
      Whole(b);
      for n := 0 to |b|
        invariant FromTarget(b, obTarget) == FromTarget(b[n..], obTarget)
      {
        Next(b, n);
        if b[n].obTarget == obTarget {
          return b[n].obTrampoline;
        }
      }
      return 0;
    }

    method AlignFromTrampoline(b: seq<Align>, obTrampoline: nat) returns (obTarget: nat)
      ensures obTarget == FromTrampoline(b, obTrampoline)
    {
      Whole(b);
      for n := 0 to |b|
        invariant FromTrampoline(b, obTrampoline) == FromTrampoline(b[n..], obTrampoline)
      {
        Next(b, n);
        if b[n].obTrampoline == obTrampoline {
          return b[n].obTarget;
        }
      }
      return 0;
    }

    method ThreadUpdate(pc: int, os: seq<Operation>) returns (next: int)
      requires forall o <- os :: o.trampoline in slots
      ensures next == Redirect(slots, os, pc)
    {
      Whole(os);
      for i := 0 to |os|
        invariant Redirect(slots, os, pc) == Redirect(slots, os[i..], pc)
      {
        Next(os, i);
        var o, tr := os[i], slots[os[i].trampoline];
        if o.isRemove {
          if o.trampoline <= pc < o.trampoline + CODE_SIZE {
            var obTarget := AlignFromTrampoline(tr.align, pc - o.trampoline);
            return o.target + obTarget;
          } else if pc == o.trampoline + CODE_IN_OFFSET {
            return o.target;
          }
        } else if o.isAdd && o.target <= pc < o.target + tr.cbRestore {
          var obTrampoline := AlignFromTarget(tr.align, pc - o.target);
          return o.trampoline + obTrampoline;
        }
      }
      return pc;
    }

    // threads are the places where the suspended threads stand.
    method TransactionCommit(thread: int, threads: array<int>) returns (status: Status)
      requires Valid(Current())
      modifies this, threads
      ensures (status, Current()) == Commit(old(Current()), thread)
      ensures threads[..] == old(
        if owner == thread then var (last, os) := CommitAll(Current(), pending); Redirected(last.slots, os, threads[..])
        else threads[..])
    {
      hide Redirect, CommitAll, SlotsOk, OperationOk;
      if owner != thread {
        return Conflict;
      }
      var done := CommitOperations();
      for i := 0 to threads.Length
        invariant done == old(CommitAll(Current(), pending).1) && Current() == old(CommitAll(Current(), pending).0)
        invariant owner == old(owner)
        invariant threads[i..] == old(threads[i..])
        invariant threads[..i] == Redirected(slots, done, old(threads[..i]))
      {
        assert threads[i] == threads[i..][0] == old(threads[i..])[0];
        threads[i] := ThreadUpdate(threads[i], done);
      }
      FreeTrampolines(done, false);
      pending, owner := [], 0;
      return Success;
    }

    method TransactionAbort(thread: int) returns (status: Status)
      requires Valid(Current())
      modifies this
      ensures (status, Current()) == Abort(old(Current()), thread)
    {
      if owner != thread {
        return Conflict;
      }
      FreeTrampolines(pending, true);
      pending, owner := [], 0;
      return Success;
    }
  }

  // What the whole commit comes to, from the middle of its first loop.
  ghost predicate Continued(start: State, all: seq<Operation>, done: seq<Operation>, s: State, rest: seq<Operation>)
    requires SlotsOk(start.code, start.slots) && forall o <- all :: OperationOk(start, o)
    requires SlotsOk(s.code, s.slots) && forall o <- rest :: OperationOk(s, o)
  {
    CommitAll(start, all) == (CommitAll(s, rest).0, done + CommitAll(s, rest).1)
  }

  lemma ContinuedStart(start: State, all: seq<Operation>)
    requires SlotsOk(start.code, start.slots) && forall o <- all :: OperationOk(start, o)
    ensures Continued(start, all, [], start, all)
  {
    assert [] + CommitAll(start, all).1 == CommitAll(start, all).1;
  }

  lemma ContinuedStep(start: State, all: seq<Operation>, done: seq<Operation>, s: State, next: State,
                      rest: seq<Operation>, after: Operation)
    requires SlotsOk(start.code, start.slots) && forall o <- all :: OperationOk(start, o)
    requires SlotsOk(s.code, s.slots) && rest != [] && forall o <- rest :: OperationOk(s, o)
    requires Continued(start, all, done, s, rest) && (next, after) == CommitOne(s, rest[0])
    ensures SlotsOk(next.code, next.slots) && (forall o <- rest[1..] :: OperationOk(next, o))
    ensures Continued(start, all, done + [after], next, rest[1..])
  {
    Assoc(done, [after], CommitAll(next, rest[1..]).1);
  }

  lemma ContinuedEnd(start: State, all: seq<Operation>, done: seq<Operation>, s: State)
    requires SlotsOk(start.code, start.slots) && forall o <- all :: OperationOk(start, o)
    requires SlotsOk(s.code, s.slots) && Continued(start, all, done, s, [])
    ensures CommitAll(start, all) == (s, done)
  {
    assert done + [] == done;
  }

  lemma FreedStep(os: seq<Operation>, i: nat, adds: bool)
    requires i < |os|
    ensures Freed(os[..i + 1], adds)
         == Freed(os[..i], adds) + if (if adds then os[i].isAdd else os[i].isRemove) then {os[i].trampoline} else {}
  {
    assert os[..i + 1] == os[..i] + [os[i]];
  }
}
