// Any number of functions in one memory, hooked and unhooked in any interleaving.
module HookMany {
  import opened HookChain
  import opened HookIdentity
  import opened HookRuns
  import opened JumpEncoding
  import opened Prologue
  import opened Transaction
  import opened X86Relocation

  // ---------- What one step leaves alone ----------

  // All that a step on this function may change is its first bytes, one trampoline and one pointer.
  ghost predicate Touches(s: State, r: State, target: int, slot: int, pointer: int) {
    && r.owner == s.owner && r.pending == s.pending
    && r.code.Keys == s.code.Keys && (forall a <- s.code :: !Within(a, target, WINDOW) ==> r.code[a] == s.code[a])
    && (forall k :: k != slot ==>
          (k in r.slots <==> k in s.slots) && (k in s.slots ==> k in r.slots && r.slots[k] == s.slots[k]))
    && (forall p :: p != pointer ==>
          (p in r.pointers <==> p in s.pointers) && (p in s.pointers ==> p in r.pointers && r.pointers[p] == s.pointers[p]))
  }

  lemma WriteTouches(code: Memory, at: int, b: seq<Byte>)
    requires Mapped(code, at, |b|) && |b| <= WINDOW
    ensures forall a <- code :: !Within(a, at, WINDOW) ==> Write(code, at, b)[a] == code[a]
  {
  }

  lemma HookTouches(w: World, s: State, layers: seq<Layer>, slot: int, detour: int)
    requires KnowsJumps(w.t) && ChainOk(w, s, layers) && CanHook(w, s, layers, slot, detour)
    ensures var r := HookOn(s, w.t, w.thread, HookOf(w, slot, detour));
      Touches(s, r, w.target, slot, w.through[detour]) && r.slots.Keys == s.slots.Keys + {slot}
  {
    hide KnowsJumps, Prepare, Valid, LayersIn, Window, Movable, Near, Patch, TrampolineCode, CodeIn, JmpImmediate, ChainOk, HookOn,
      NextTaken, Clear, Write, Base, MovedJump, EndsFrom, AlignTable, Head;
    ChainParts(w, s, layers);
    var h, n := HookOf(w, slot, detour), NextTaken(w, layers, slot);
    var m := if layers == [] then Base(w, slot).moved else MovedJump(slot, layers[|layers| - 1].slot);
    HookTakes(w, s, layers, slot, detour);
    HookOnIs(s, w.t, w.thread, h, m, n);
    WriteTouches(s.code, w.target, Patch(w.target, slot, n));
  }

  lemma UnhookTouches(w: World, s: State, layers: seq<Layer>, k: nat)
    requires ChainOk(w, s, layers) && k < |layers| && layers[k].on
    ensures layers[k].detour in w.through
    ensures var l := layers[k]; var r := HookOff(s, w.thread, HookOf(w, l.slot, l.detour));
      Touches(s, r, w.target, l.slot, w.through[l.detour]) && r.slots.Keys <= s.slots.Keys
  {
    hide Movable, Window, Valid, CodeIn, Prepare, Head, JmpImmediate, LayerRecord, LayersIn, HookIsStillThere, ChainOk, HookOff, Write,
      Restored;
    ChainParts(w, s, layers);
    CanUnhook(w, s, layers, k);
    StillThereIsNewest(w, s, layers, k);
    var l := layers[k];
    HookOffIs(s, w.thread, HookOf(w, l.slot, l.detour));
    ShortRecord(s, l.slot);
    WriteTouches(s.code, w.target, Restored(s.slots[l.slot]));
  }

  lemma ShortRecord(s: State, k: int)
    requires Valid(s) && k in s.slots
    ensures |s.slots[k].head| == HEAD_SIZE && s.slots[k].cbRestore <= CODE_SIZE
  {
    SlotIsOk(s, k);
    assert SlotOk(s.code, s.slots[k]);
  }

  // ---------- Functions that have nothing in common ----------

  ghost predicate Strangers(v: World, w: World) {
    && (v.target + WINDOW <= w.target || w.target + WINDOW <= v.target)
    && forall d <- v.through, e <- w.through :: v.through[d] != w.through[e]
  }

  ghost predicate OwnSlots(ks: seq<Layer>, ls: seq<Layer>) {
    forall i, j :: 0 <= i < |ks| && 0 <= j < |ls| ==> ks[i].slot != ls[j].slot
  }

  // A step on another function keeps the chain of this one.
  lemma StrangerKeeps(w: World, s: State, layers: seq<Layer>, r: State, target: int, slot: int, pointer: int)
    requires ChainOk(w, s, layers) && Touches(s, r, target, slot, pointer) && Valid(r) && Clear(w, r.slots.Keys)
    requires w.target + WINDOW <= target || target + WINDOW <= w.target
    requires (forall d <- w.through :: w.through[d] != pointer) && forall i :: 0 <= i < |layers| ==> layers[i].slot != slot
    ensures ChainOk(w, r, layers)
  {
    hide Movable, Window, Valid, LayerRecord, Clear, Near;
    ChainParts(w, s, layers);
    WindowStays(w, s, r, target);
    forall i | 0 <= i < |layers| ensures LayerIn(w, r.slots, r.pointers, layers, i) {
      assert LayerIn(w, s.slots, s.pointers, layers, i);
    }
    ChainOf(w, r, layers);
  }

  lemma WindowStays(w: World, s: State, r: State, target: int)
    requires Mapped(s.code, w.target, WINDOW) && r.code.Keys == s.code.Keys
    requires forall a <- s.code :: !Within(a, target, WINDOW) ==> r.code[a] == s.code[a]
    requires w.target + WINDOW <= target || target + WINDOW <= w.target
    ensures Mapped(r.code, w.target, WINDOW) && Read(r.code, w.target, WINDOW) == Read(s.code, w.target, WINDOW)
  {
    forall a | w.target <= a < w.target + WINDOW ensures a in r.code && r.code[a] == s.code[a] {
      assert !Within(a, target, WINDOW);
    }
  }

  // ---------- Any run on all of them ----------

  // An event on one of the functions.
  datatype At = At(i: nat, event: Event)

  ghost predicate AllOk(ws: seq<World>, s: State, cs: seq<seq<Layer>>) {
    && |cs| == |ws| && Valid(s)
    && (forall i :: 0 <= i < |ws| ==> KnowsJumps(ws[i].t) && ChainOk(ws[i], s, cs[i]))
    && (forall i, j :: 0 <= i < |ws| && 0 <= j < |ws| && i != j ==> Strangers(ws[i], ws[j]) && OwnSlots(cs[i], cs[j]))
  }

  // Besides what it asks for on one function, a new trampoline is in the way of no other.
  ghost predicate CanHappen(ws: seq<World>, s: State, cs: seq<seq<Layer>>, e: At)
    requires |cs| == |ws|
  {
    && e.i < |ws| && Possible(ws[e.i], s, cs[e.i], e.event)
    && (e.event.On? ==> forall j :: 0 <= j < |ws| ==>
          Clear(ws[j], s.slots.Keys + {e.event.slot}) && forall k :: 0 <= k < |cs[j]| ==> cs[j][k].slot != e.event.slot)
  }

  ghost function Then(ws: seq<World>, s: State, cs: seq<seq<Layer>>, e: At): (r: (State, seq<seq<Layer>>, seq<World>))
    requires |cs| == |ws| && Valid(s) && CanHappen(ws, s, cs, e)
    ensures Valid(r.0) && |r.1| == |ws| == |r.2|
    ensures forall i :: 0 <= i < |ws| ==> r.2[i] == ws[i].(original := r.2[i].original)
  {
    var (next, more, now) := HookRuns.After(ws[e.i], s, cs[e.i], e.event);
    (next, cs[e.i := more], ws[e.i := now])
  }

  // What an event touches is the function's own.
  lemma EventTouches(ws: seq<World>, s: State, cs: seq<seq<Layer>>, e: At) returns (slot: int, pointer: int)
    requires AllOk(ws, s, cs) && CanHappen(ws, s, cs, e)
    ensures var (next, more, now) := HookRuns.After(ws[e.i], s, cs[e.i], e.event);
      && ChainOk(now, next, more) && Touches(s, next, ws[e.i].target, slot, pointer)
      && (exists d :: d in ws[e.i].through && ws[e.i].through[d] == pointer)
      && (forall l <- more :: l.slot == slot || exists k :: 0 <= k < |cs[e.i]| && cs[e.i][k].slot == l.slot)
      && (next.slots.Keys <= s.slots.Keys + (if e.event.On? then {slot} else {}))
      && (if e.event.On? then slot == e.event.slot else exists k :: 0 <= k < |cs[e.i]| && cs[e.i][k].slot == slot)
      && Visits(more) == Attached(Visits(cs[e.i]), [e.event])
  {
    hide ChainOk, CanHook, HookOn, HookOff, Touches, Visits, KnowsJumps, Strangers, OwnSlots, Clear;
    var w, layers := ws[e.i], cs[e.i];
    EventStep(w, s, layers, e.event);
    match e.event {
      case On(at, detour) =>
        CanHookParts(w, s, layers, at, detour);
        HookTouches(w, s, layers, at, detour);
        slot, pointer := at, w.through[detour];
        forall l <- layers + [Layer(at, detour, true)]
          ensures l.slot == slot || exists k :: 0 <= k < |layers| && layers[k].slot == l.slot
        {
        }
      case Off(detour) =>
        var k := Newest(layers, detour).value;
        UnhookTouches(w, s, layers, k);
        slot, pointer := layers[k].slot, w.through[detour];
        WithoutSlots(layers, k);
    }
  }

  lemma CanHookParts(w: World, s: State, layers: seq<Layer>, slot: int, detour: int)
    requires CanHook(w, s, layers, slot, detour)
    ensures detour in w.through
  {
  }

  lemma WithoutSlots(layers: seq<Layer>, k: nat)
    requires k < |layers|
    ensures forall l <- Without(layers, k) :: exists i :: 0 <= i < |layers| && layers[i].slot == l.slot
  {
    forall l <- Without(layers, k) ensures exists i :: 0 <= i < |layers| && layers[i].slot == l.slot {
      var i :| 0 <= i < |Without(layers, k)| && Without(layers, k)[i] == l;
      assert layers[i].slot == l.slot;
    }
  }

  // Every event keeps every chain whole.
  lemma EventKeepsAll(ws: seq<World>, s: State, cs: seq<seq<Layer>>, e: At)
    requires AllOk(ws, s, cs) && CanHappen(ws, s, cs, e)
    ensures var (next, more, now) := Then(ws, s, cs, e);
      AllOk(now, next, more) && Visits(more[e.i]) == Attached(Visits(cs[e.i]), [e.event])
  {
    hide ChainOk, Possible, HookRuns.After, Visits, KnowsJumps, Touches, Clear;
    var (next, more, now) := Then(ws, s, cs, e);
    var slot, pointer := EventTouches(ws, s, cs, e);
    forall j | 0 <= j < |ws| ensures KnowsJumps(now[j].t) && ChainOk(now[j], next, more[j]) {
      if j != e.i {
        StrangerStays(ws, s, cs, e, next, slot, pointer, j);
      }
    }
    forall i, j | 0 <= i < |ws| && 0 <= j < |ws| && i != j ensures Strangers(now[i], now[j]) && OwnSlots(more[i], more[j]) {
      SlotsStayOwn(ws, s, cs, e, slot, more, i, j);
    }
  }

  lemma StrangerStays(ws: seq<World>, s: State, cs: seq<seq<Layer>>, e: At, next: State, slot: int, pointer: int, j: nat)
    requires AllOk(ws, s, cs) && CanHappen(ws, s, cs, e) && j < |ws| && j != e.i && Valid(next)
    requires Touches(s, next, ws[e.i].target, slot, pointer)
    requires exists d :: d in ws[e.i].through && ws[e.i].through[d] == pointer
    requires next.slots.Keys <= s.slots.Keys + (if e.event.On? then {slot} else {})
    requires if e.event.On? then slot == e.event.slot else exists k :: 0 <= k < |cs[e.i]| && cs[e.i][k].slot == slot
    ensures ChainOk(ws[j], next, cs[j])
  {
    hide ChainOk, Possible, Touches, Clear, Valid, KnowsJumps;
    assert Strangers(ws[e.i], ws[j]) && OwnSlots(cs[e.i], cs[j]);
    var d :| d in ws[e.i].through && ws[e.i].through[d] == pointer;
    ClearFewer(ws[j], if e.event.On? then s.slots.Keys + {slot} else s.slots.Keys, next.slots.Keys) by {
      if !e.event.On? {
        ChainParts(ws[j], s, cs[j]);
      }
    }
    StrangerKeeps(ws[j], s, cs[j], next, ws[e.i].target, slot, pointer);
  }

  lemma ClearFewer(w: World, slots: set<int>, fewer: set<int>)
    requires Clear(w, slots) && fewer <= slots
    ensures Clear(w, fewer)
  {
  }

  lemma SlotsStayOwn(ws: seq<World>, s: State, cs: seq<seq<Layer>>, e: At, slot: int, more: seq<seq<Layer>>, i: nat, j: nat)
    requires AllOk(ws, s, cs) && CanHappen(ws, s, cs, e) && i < |ws| && j < |ws| && i != j && |more| == |ws|
    requires more == cs[e.i := more[e.i]]
    requires forall l <- more[e.i] :: l.slot == slot || exists k :: 0 <= k < |cs[e.i]| && cs[e.i][k].slot == l.slot
    requires if e.event.On? then slot == e.event.slot else exists k :: 0 <= k < |cs[e.i]| && cs[e.i][k].slot == slot
    ensures OwnSlots(more[i], more[j])
  {
    hide ChainOk, Possible, Clear, Valid, KnowsJumps, Strangers;
    assert OwnSlots(cs[i], cs[j]);
    forall p, q | 0 <= p < |more[i]| && 0 <= q < |more[j]| ensures more[i][p].slot != more[j][q].slot {
      if i == e.i {
        assert more[i][p] in more[e.i];
      } else if j == e.i {
        assert more[j][q] in more[e.i];
      }
    }
  }

  ghost predicate AllCanHappen(ws: seq<World>, s: State, cs: seq<seq<Layer>>, es: seq<At>)
    requires |cs| == |ws| && Valid(s)
    decreases |es|
  {
    es == [] || (CanHappen(ws, s, cs, es[0]) &&
                 var (next, more, now) := Then(ws, s, cs, es[0]); AllCanHappen(now, next, more, es[1..]))
  }

  ghost function PlayAll(ws: seq<World>, s: State, cs: seq<seq<Layer>>, es: seq<At>): (r: (State, seq<seq<Layer>>, seq<World>))
    requires |cs| == |ws| && Valid(s) && AllCanHappen(ws, s, cs, es)
    ensures |r.1| == |ws| == |r.2| && forall i :: 0 <= i < |ws| ==> r.2[i] == ws[i].(original := r.2[i].original)
    decreases |es|
  {
    if es == [] then (s, cs, ws)
    else
      var (next, more, now) := Then(ws, s, cs, es[0]);
      PlayAll(now, next, more, es[1..])
  }

  // The events on one function.
  function Of(es: seq<At>, i: nat): seq<Event> {
    if es == [] then [] else (if es[0].i == i then [es[0].event] else []) + Of(es[1..], i)
  }

  lemma {:induction false} AttachedTwice(ds: seq<int>, a: seq<Event>, b: seq<Event>)
    ensures Attached(ds, a + b) == Attached(Attached(ds, a), b)
    decreases |a|
  {
    if a == [] {
      assert a + b == b;
    } else {
      var next := match a[0] case On(_, detour) => [detour] + ds case Off(detour) => WithoutFirst(ds, detour);
      assert (a + b)[1..] == a[1..] + b;
      AttachedTwice(next, a[1..], b);
    }
  }

  lemma {:induction false} RunKeepsAll(ws: seq<World>, s: State, cs: seq<seq<Layer>>, es: seq<At>)
    requires AllOk(ws, s, cs) && AllCanHappen(ws, s, cs, es)
    ensures var (last, left, now) := PlayAll(ws, s, cs, es);
      AllOk(now, last, left) && forall i :: 0 <= i < |ws| ==> Visits(left[i]) == Attached(Visits(cs[i]), Of(es, i))
    decreases |es|
  {
    hide AllOk, CanHappen, Then, Visits;
    SizesOk(ws, s, cs);
    if es != [] {
      EventKeepsAll(ws, s, cs, es[0]);
      EventMovesOne(ws, s, cs, es[0]);
      var (next, more, now) := Then(ws, s, cs, es[0]);
      RunKeepsAll(now, next, more, es[1..]);
      forall i | 0 <= i < |ws|
        ensures Attached(Visits(more[i]), Of(es[1..], i)) == Attached(Visits(cs[i]), Of(es, i))
      {
        AttachedTwice(Visits(cs[i]), if es[0].i == i then [es[0].event] else [], Of(es[1..], i));
      }
    }
  }

  lemma SizesOk(ws: seq<World>, s: State, cs: seq<seq<Layer>>)
    requires AllOk(ws, s, cs)
    ensures |cs| == |ws| && Valid(s)
  {
  }

  lemma EventMovesOne(ws: seq<World>, s: State, cs: seq<seq<Layer>>, e: At)
    requires |cs| == |ws| && Valid(s) && CanHappen(ws, s, cs, e)
    ensures e.i < |ws| && forall j :: 0 <= j < |ws| && j != e.i ==> Then(ws, s, cs, e).1[j] == cs[j]
  {
    hide Possible, HookRuns.After, Clear;
  }

  // After any interleaved run on any number of functions that had no hooks, control that enters one
  // of them passes through exactly the detours that were attached to it and not detached again, the
  // newest first, and then comes to that function's own code.
  lemma ControlPassesInEveryFunction(ws: seq<World>, s: State, cs: seq<seq<Layer>>, es: seq<At>, i: nat)
    requires AllOk(ws, s, cs) && (forall c <- cs :: c == []) && AllCanHappen(ws, s, cs, es) && i < |ws|
    ensures var (last, left, now) := PlayAll(ws, s, cs, es);
      && Walk(now[i], last, ws[i].target, if left[i] == [] then 0 else 1 + Steps(left[i]))
         == (Attached([], Of(es, i)), if left[i] == [] then ws[i].target else left[i][0].slot)
      && BodyAtEnd(now[i], last, left[i])
  {
    hide AllCanHappen, PlayAll, Walk, ChainOk, BodyAtEnd, Attached, KnowsJumps, Valid, Strangers;
    RunKeepsAll(ws, s, cs, es);
    var (last, left, now) := PlayAll(ws, s, cs, es);
    assert cs[i] in cs && cs[i] == [];
    EntryPassesThroughTheAttached(now[i], last, left[i]);
    ChainEnds(now[i], last, left[i]);
  }
}
