// Calls of the transaction functions, by any threads and in any order: a call that is refused changes
// nothing, over any run.
module HookCalls {
  import opened CStrings
  import opened JumpEncoding
  import opened Prologue
  import opened Transaction
  import opened X86Relocation

  datatype Call =
    | Begins(thread: int)
    | Attaches(thread: int, pointer: int, detour: int, slot: Option<int>)
    | Detaches(thread: int, pointer: int, detour: int)
    | Commits(thread: int)
    | Aborts(thread: int)

  // What the call asks for: code at the pointer that is to be hooked, and a free place for the trampoline
  // that the allocator finds; a trampoline at the pointer that is to be unhooked.
  ghost predicate May(s: State, t: Table, c: Call) {
    Valid(s) &&
    match c
    case Attaches(_, pointer, _, slot) =>
      && pointer in s.pointers && Mapped(s.code, s.pointers[pointer], WINDOW)
      && (slot.Some? ==>
            && slot.value !in s.slots
            && Prepare(t, Read(s.code, s.pointers[pointer], WINDOW), s.pointers[pointer], slot.value).Some?)
    case Detaches(_, pointer, _) => pointer in s.pointers && s.pointers[pointer] in s.slots
    case _ => true
  }

  ghost function Do(s: State, t: Table, c: Call): (r: (Status, State))
    requires May(s, t, c)
    ensures Valid(r.1)
  {
    match c
    case Begins(thread) => Begin(s, thread)
    case Attaches(thread, pointer, detour, slot) => Attach(s, t, thread, pointer, detour, slot)
    case Detaches(thread, pointer, detour) => Detach(s, thread, pointer, detour)
    case Commits(thread) => Commit(s, thread)
    case Aborts(thread) => Abort(s, thread)
  }

  ghost predicate AllMay(s: State, t: Table, cs: seq<Call>)
    decreases |cs|
  {
    Valid(s) && (cs != [] ==> May(s, t, cs[0]) && AllMay(Do(s, t, cs[0]).1, t, cs[1..]))
  }

  ghost function DoAll(s: State, t: Table, cs: seq<Call>): (r: State)
    requires AllMay(s, t, cs)
    ensures Valid(r)
    decreases |cs|
  {
    if cs == [] then s else DoAll(Do(s, t, cs[0]).1, t, cs[1..])
  }

  lemma SlotIsOk(s: State, k: int)
    requires Valid(s) && k in s.slots
    ensures SlotOk(s.code, s.slots[k])
  {
  }

  // A thread may begin when there is no transaction, and only the thread that began may go on. It may not
  // hook a function by itself, nor unhook it by another detour than the one in the trampoline.
  lemma AnswersExactly(s: State, t: Table, c: Call)
    requires May(s, t, c)
    ensures var status := Do(s, t, c).0;
      && (status == Conflict <==> s.owner != if c.Begins? then 0 else c.thread)
      && (status == InvalidParameter ==> c.Attaches?)
      && (status == NoMemory <==> c.Attaches? && s.owner == c.thread && c.detour != s.pointers[c.pointer] && c.slot == None)
      && (c.Attaches? ==> (status == InvalidParameter <==> s.owner == c.thread && c.detour == s.pointers[c.pointer]))
      && (c.Detaches? ==>
            (status == Success <==> s.owner == c.thread && s.slots[s.pointers[c.pointer]].pbDetour == c.detour))
      && (c.Detaches? ==> status == Success || status == Conflict || status == InvalidBlockLength)
      && (c.Begins? || c.Commits? || c.Aborts? ==> status == Success || status == Conflict)
      && (c.Attaches? && s.owner == c.thread && c.detour != s.pointers[c.pointer] && c.slot.Some? ==>
            match Prepare(t, Read(s.code, s.pointers[c.pointer], WINDOW), s.pointers[c.pointer], c.slot.value).value
            case Failed(why) => status == why
            case Prepared(_, _) => status == Success)
  {
    hide Prepare, CommitAll, Head, EndsFrom, AlignTable, Valid;
    if c.Detaches? {
      SlotIsOk(s, s.pointers[c.pointer]);
    }
    if c.Attaches? && c.slot.Some? {
      FailuresAre(t, Read(s.code, s.pointers[c.pointer], WINDOW), s.pointers[c.pointer], c.slot.value);
    }
  }

  lemma FailuresAre(t: Table, code: seq<Byte>, target: int, trampoline: int)
    requires Prepare(t, code, target, trampoline).Some?
    ensures var p := Prepare(t, code, target, trampoline).value;
      p.Failed? ==> p.status == InvalidBlockLength || p.status == InvalidHandle || p.status == Trapped
  {
  }

  lemma RefusedIsNothing(s: State, t: Table, c: Call)
    requires May(s, t, c) && Do(s, t, c).0 != Success
    ensures Do(s, t, c).1 == s
  {
    hide Prepare, CommitAll, Head, EndsFrom, AlignTable;
  }

  // The calls that succeed, as they come.
  ghost function Accepted(s: State, t: Table, cs: seq<Call>): seq<Call>
    requires AllMay(s, t, cs)
    decreases |cs|
  {
    if cs == [] then []
    else (if Do(s, t, cs[0]).0 == Success then [cs[0]] else []) + Accepted(Do(s, t, cs[0]).1, t, cs[1..])
  }

  // Any run comes to what its accepted calls alone come to.
  lemma {:induction false} RefusedDropOut(s: State, t: Table, cs: seq<Call>)
    requires AllMay(s, t, cs)
    ensures AllMay(s, t, Accepted(s, t, cs)) && DoAll(s, t, Accepted(s, t, cs)) == DoAll(s, t, cs)
    decreases |cs|
  {
    hide Do, May;
    if cs != [] {
      var (status, next) := Do(s, t, cs[0]);
      var rest := Accepted(next, t, cs[1..]);
      RefusedDropOut(next, t, cs[1..]);
      if status == Success {
        assert ([cs[0]] + rest)[1..] == rest;
      } else {
        RefusedIsNothing(s, t, cs[0]);
        assert [] + rest == rest;
      }
    }
  }

  // A detach by another detour than the one in the trampoline, or by another thread than the owner.
  ghost predicate Mistaken(s: State, c: Call) {
    && c.Detaches? && c.pointer in s.pointers && s.pointers[c.pointer] in s.slots
    && (s.owner != c.thread || s.slots[s.pointers[c.pointer]].pbDetour != c.detour)
  }

  // However often it is called, nothing changes.
  lemma {:induction false} MistakenDetaches(s: State, t: Table, cs: seq<Call>)
    requires Valid(s) && forall i :: 0 <= i < |cs| ==> Mistaken(s, cs[i])
    ensures AllMay(s, t, cs) && DoAll(s, t, cs) == s
    decreases |cs|
  {
    hide Do, Valid;
    if cs != [] {
      assert Mistaken(s, cs[0]);
      AnswersExactly(s, t, cs[0]);
      RefusedIsNothing(s, t, cs[0]);
      MistakenDetaches(s, t, cs[1..]);
    }
  }

  // And a transaction of nothing else leaves code, trampolines and pointers as they were.
  lemma MistakenTransaction(s: State, t: Table, thread: int, cs: seq<Call>)
    requires Valid(s) && s.owner == 0 && s.pending == []
    requires forall i :: 0 <= i < |cs| ==> Mistaken(s.(owner := thread), cs[i])
    ensures var begun := Do(s, t, Begins(thread)).1;
      && AllMay(begun, t, cs)
      && Do(DoAll(begun, t, cs), t, Commits(thread)) == (Success, s)
  {
    hide DoAll, AllMay;
    var begun := Do(s, t, Begins(thread)).1;
    MistakenDetaches(begun, t, cs);
    assert Freed([], false) == {} && s.slots - {} == s.slots;
  }

  // While a thread has a transaction, nothing that other threads call has any effect.
  lemma {:induction false} OthersHaveNoEffect(s: State, t: Table, cs: seq<Call>)
    requires s.owner != 0 && (forall i :: 0 <= i < |cs| ==> cs[i].thread != s.owner) && AllMay(s, t, cs)
    ensures DoAll(s, t, cs) == s
    decreases |cs|
  {
    hide Do, May;
    if cs != [] {
      AnswersExactly(s, t, cs[0]);
      RefusedIsNothing(s, t, cs[0]);
      OthersHaveNoEffect(s, t, cs[1..]);
    }
  }
}
