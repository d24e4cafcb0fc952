/** What a run of the program does, told by the identities of objects: who is
    resumed never depends on an address or on the record of destroyed ones. Every
    run ends well or with a step that the program must not ask for. */
module EvRun {
  import opened Bytes
  import opened EvState

  /** What the rest of the program may do between two suspension points. */
  datatype Op =
    | New(fd: int, addr: Addr)
    | Ref(addr: Addr)
    | Unref(addr: Addr)
    | Listen(addr: Addr, ev: EvType, frame: Frame)
    | Cancel(addr: Addr, onRead: seq<Op>, onWrite: seq<Op>)

  /** One entry of an epoll batch, with what the resumed coroutines go on to do. */
  datatype Event = Event(revents: bv32, addr: Addr, id: nat, onRead: seq<Op>, onWrite: seq<Op>)

  /** One descriptor the kernel reports, and what its coroutines go on to do. */
  datatype Pick = Pick(fd: int, revents: bv32, onRead: seq<Op>, onWrite: seq<Op>)

  /** One turn of the main loop: timeout handling, then one epoll batch. */
  datatype Turn = Turn(timeouts: seq<Op>, picks: seq<Pick>)

  /** What happens in a run: a coroutine is resumed, or the program does something. */
  datatype Step = Woke(id: nat, ev: EvType, frame: Frame) | Did(op: Op)

  datatype World = World(
    live: map<Addr, Fd>,
    changes: map<Addr, State>, // change_list: the state before the first change
    destroyed: set<Addr>, // since the turn's timeouts were handled
    pins: multiset<Addr>, // references that the loop or a cancel in progress holds
    nextId: nat,
    calls: seq<Call>, // every epoll_ctl so far
    trace: seq<Step>)

  /** How a part of a run ends: well, or because the program asks for something
      that it must not, or because the last reference to an object is given back
      while a coroutine waits on it. */
  datatype Outcome = Fine(w: World) | Refused(w: World, op: Op) | Abandoned(w: World, addr: Addr)

  // ---------------------------------------------------------------- single steps

  function WithObject(w: World, a: Addr, o: Fd): World { w.(live := w.live[a := o]) }

  /** A slot is taken or given back; only the state before the first change is saved. */
  function WithSlot(w: World, a: Addr, ev: EvType, f: Option<Frame>): World
    requires a in w.live
  {
    var saved := if a in w.changes then w.changes else w.changes[a := w.live[a].GetState()];
    w.(changes := saved, live := w.live[a := w.live[a].SetSlot(ev, f)])
  }

  function WithRc(w: World, a: Addr, rc: nat): World
    requires a in w.live
  {
    WithObject(w, a, w.live[a].(rc := rc))
  }

  function Made(w: World, fd: int, a: Addr): World {
    w.(live := w.live[a := Fd(None, None, fd, 1, false, w.nextId)], nextId := w.nextId + 1)
  }

  /** The call that unregisters a descriptor before it is closed. */
  function Closing(w: World, a: Addr): seq<Call>
    requires a in w.live
  {
    if a in w.changes && !w.changes[a].IsEmpty() then [Call(Del, w.live[a].fd, Reg(0, a, w.live[a].id))] else []
  }

  function Destroyed(w: World, a: Addr): World
    requires a in w.live
  {
    w.(live := w.live - {a}, changes := w.changes - {a}, destroyed := w.destroyed + {a},
       calls := w.calls + Closing(w, a))
  }

  /** One reference less, or the object gone. */
  function Dropped(w: World, a: Addr): World
    requires a in w.live
  {
    if w.live[a].rc > 1 then WithRc(w, a, w.live[a].rc - 1) else Destroyed(w, a)
  }

  /** The loop, or a cancel in progress, takes a reference of its own. */
  function Held(w: World, a: Addr): World
    requires a in w.live
  {
    WithRc(w, a, w.live[a].rc + 1).(pins := w.pins + multiset{a})
  }

  /** And gives it back. */
  ghost function LetGo(w: World, a: Addr): Outcome {
    var v := w.(pins := w.pins - multiset{a});
    if a in v.live && (v.live[a].rc > 1 || v.live[a].GetState().IsEmpty()) then Fine(Dropped(v, a))
    else Abandoned(v, a)
  }

  /** What the program may ask for. A reference that it gives back is one of its
      own, and not the last one while a coroutine waits. */
  predicate Allowed(live: map<Addr, Fd>, pins: multiset<Addr>, op: Op) {
    match op
    case New(fd, a) => a !in live && forall b <- live.Keys :: live[b].fd != fd
    case Ref(a) => a in live
    case Unref(a) => a in live && live[a].rc > pins[a] && (live[a].rc > 1 || live[a].GetState().IsEmpty())
    case Listen(a, ev, _) => a in live && !live[a].canceled && live[a].Slot(ev).None?
    case Cancel(a, _, _) => a in live
  }

  // ---------------------------------------------------------------- runs

  /** A list of operations, up to the first that goes wrong. */
  ghost function DoesAll(w: World, ops: seq<Op>): Outcome
    decreases ops, 0
  {
    if ops == [] then Fine(w)
    else
      var r := Does(w, ops[0]);
      if r.Fine? then DoesAll(r.w, ops[1..]) else r
  }

  ghost function Does(w: World, op: Op): Outcome
    decreases op, 1
  {
    var v := w.(trace := w.trace + [Did(op)]);
    if !Allowed(v.live, v.pins, op) then Refused(v, op)
    else
      match op
      case New(fd, a) => Fine(Made(v, fd, a))
      case Ref(a) => Fine(WithRc(v, a, v.live[a].rc + 1))
      case Unref(a) => Fine(Dropped(v, a))
      case Listen(a, ev, frame) => Fine(WithSlot(v, a, ev, Some(frame)))
      case Cancel(a, _, _) => if v.live[a].canceled then Fine(v) else Cancels(v, op)
  }

  /** An object is canceled: its reader runs, then its writer, if it still waits. */
  ghost function Cancels(w: World, op: Op): Outcome
    requires op.Cancel? && op.addr in w.live
    decreases op, 0
  {
    var a, id := op.addr, w.live[op.addr].id;
    var r := Resumes(Held(Canceled(w, a), a), a, id, Read, op.onRead);
    if !r.Fine? then r
    else
      var s := Resumes(r.w, a, id, Write, op.onWrite);
      if s.Fine? then LetGo(s.w, a) else s
  }

  function Canceled(w: World, a: Addr): World
    requires a in w.live
  {
    WithObject(w, a, w.live[a].(canceled := true))
  }

  /** The coroutine that waits in a slot of the object with this identity leaves the
      slot and runs to its next suspension; nothing happens if there is none. */
  ghost function Resumes(w: World, a: Addr, id: nat, ev: EvType, script: seq<Op>): Outcome
    decreases script, 1
  {
    if a in w.live && w.live[a].id == id && w.live[a].Slot(ev).Some? then
      DoesAll(Woken(w, a, ev), script)
    else
      Fine(w)
  }

  function Woken(w: World, a: Addr, ev: EvType): World
    requires a in w.live && w.live[a].Slot(ev).Some?
  {
    WithSlot(w, a, ev, None).(trace := w.trace + [Woke(w.live[a].id, ev, w.live[a].Slot(ev).value)])
  }

  /** The events of a slot, or an error, are reported. */
  predicate Reports(revents: bv32, ev: EvType) {
    revents & ((if ev == Read then EVENTS_READ else EVENTS_WRITE) | EVENTS_ERR) != 0
  }

  ghost function ServesSlot(w: World, e: Event, ev: EvType): Outcome {
    if !Reports(e.revents, ev) then Fine(w)
    else Resumes(w, e.addr, e.id, ev, if ev == Read then e.onRead else e.onWrite)
  }

  /** The object of the entry is the one that lives at its address now. */
  predicate Lives(w: World, e: Event) { e.addr in w.live && w.live[e.addr].id == e.id }

  /** An entry of a batch: nothing for an object that is gone; otherwise its reader
      runs, and then its writer if it still waits, as far as their events are
      reported, and the object lives until both have run. */
  ghost function Serves(w: World, e: Event): Outcome {
    if !Lives(w, e) then Fine(w)
    else
      var r := ServesSlot(Held(w, e.addr), e, Read);
      if !r.Fine? then r
      else
        var s := ServesSlot(r.w, e, Write);
        if s.Fine? then LetGo(s.w, e.addr) else s
  }

  ghost function ServesAll(w: World, batch: seq<Event>): Outcome
    decreases batch
  {
    if batch == [] then Fine(w)
    else
      var r := Serves(w, batch[0]);
      if r.Fine? then ServesAll(r.w, batch[1..]) else r
  }

  ghost predicate WaitsOn(live: map<Addr, Fd>, fd: int, a: Addr) {
    a in live && live[a].fd == fd && !live[a].GetState().IsEmpty()
  }

  /** The object that someone waits on with this descriptor. */
  ghost function WaitedOn(live: map<Addr, Fd>, fd: int): (r: Option<Addr>)
    ensures r.Some? ==> WaitsOn(live, fd, r.value)
  {
    if exists a :: WaitsOn(live, fd, a) then
      var a :| WaitsOn(live, fd, a);
      Some(a)
    else
      None
  }

  /** The entries for the reported descriptors that someone waits on. */
  ghost function Batch(live: map<Addr, Fd>, picks: seq<Pick>): seq<Event> {
    if picks == [] then []
    else
      var p := picks[|picks| - 1];
      Batch(live, picks[..|picks| - 1]) + EventFor(live, p)
  }

  ghost function EventFor(live: map<Addr, Fd>, p: Pick): seq<Event> {
    var a := WaitedOn(live, p.fd);
    if a.None? then []
    else [Event(p.revents, a.value, live[a.value].id, p.onRead, p.onWrite)]
  }

  /** All interest changes are brought to the kernel's notice. */
  function Applied(w: World, order: seq<Addr>): World {
    w.(changes := map[], calls := w.calls + CallsFor(w.live, w.changes, order))
  }

  /** One turn; `order` is that of the change list. */
  ghost function Turns(w: World, t: Turn, order: seq<Addr>): Outcome {
    var r := DoesAll(w, t.timeouts);
    if !r.Fine? then r
    else
      var v := Applied(r.w.(destroyed := {}), order);
      ServesAll(v, Batch(v.live, t.picks))
  }

  /** Any number of turns. */
  ghost function Goes(w: World, turns: seq<Turn>, orders: seq<seq<Addr>>): Outcome
    requires |orders| == |turns|
    decreases |turns|
  {
    if turns == [] then Fine(w)
    else
      var n := |turns| - 1;
      var r := Goes(w, turns[..n], orders[..n]);
      if r.Fine? then Turns(r.w, turns[n], orders[n]) else r
  }

  /** Each of these orders is one of the change list that its turn applies. */
  ghost predicate InOrder(w: World, turns: seq<Turn>, orders: seq<seq<Addr>>)
    requires |orders| == |turns|
    decreases |turns|
  {
    turns == []
    || (var n := |turns| - 1;
        InOrder(w, turns[..n], orders[..n])
        && (var r := Goes(w, turns[..n], orders[..n]); r.Fine? ==> OrderOk(r.w, turns[n], orders[n])))
  }

  ghost predicate OrderOk(w: World, t: Turn, order: seq<Addr>) {
    var r := DoesAll(w, t.timeouts);
    r.Fine? ==> OrderOf(order, r.w.changes.Keys)
  }

  // ---------------------------------------------------------------- what all of it keeps

  /** Each live object is referenced, by the loop at least as often as it is
      pinned, and no identity is used twice. */
  ghost predicate Fit(w: World) {
    && (forall a :: a in w.live ==> w.live[a].rc >= 1 && w.live[a].id < w.nextId)
    && (forall a :: a in w.pins ==> a in w.live && w.live[a].rc >= w.pins[a])
  }

  /** The object at `a` is the one that was there before, and its address has not
      been put on record; once canceled, it stays so, and nobody waits on it again. */
  ghost predicate Stays(w0: World, w: World, a: Addr)
    requires a in w0.live
  {
    && a in w.live && w.live[a].id == w0.live[a].id && (a in w.destroyed ==> a in w0.destroyed)
    && (w0.live[a].canceled ==> StaysOut(w0.live[a], w.live[a]))
  }

  ghost predicate StaysOut(o: Fd, p: Fd) {
    p.canceled && (o.readFrame.None? ==> p.readFrame.None?) && (o.writeFrame.None? ==> p.writeFrame.None?)
  }

  /** The object that was at `a` is gone, and its address is on record. */
  ghost predicate Goner(w0: World, w: World, a: Addr)
    requires a in w0.live
  {
    a in w.destroyed && (a in w.live ==> w.live[a].id != w0.live[a].id)
  }

  /** Since an earlier moment: each object stays or is on record as gone, and the
      pinned ones stay; objects made since have new identities. */
  ghost predicate Later(w0: World, w: World) {
    && w.pins == w0.pins && w0.nextId <= w.nextId && w0.destroyed <= w.destroyed
    && (forall a :: a in w0.live ==> Stays(w0, w, a) || Goner(w0, w, a))
    && (forall a :: a in w0.live && a in w0.pins ==> Stays(w0, w, a))
    && (forall a :: a in w.live && !(a in w0.live && w.live[a].id == w0.live[a].id) ==> w.live[a].id >= w0.nextId)
  }

  /** A run that does not end well ends at a step that the program must not take. */
  ghost predicate Real(r: Outcome) {
    match r
    case Fine(w) => true
    case Refused(w, op) => !Allowed(w.live, w.pins, op)
    case Abandoned(w, a) => a in w.live && w.live[a].rc == 1 && !w.live[a].GetState().IsEmpty()
  }

  ghost predicate Sound(w: World, r: Outcome) {
    Fit(r.w) && Real(r) && (r.Fine? ==> Later(w, r.w))
  }

  lemma LaterSelf(w: World)
    ensures Later(w, w)
  {
  }

  lemma LaterOn(w0: World, w1: World, w: World)
    requires Fit(w0) && Later(w0, w1) && Later(w1, w)
    ensures Later(w0, w)
  {
    forall a | a in w0.live
      ensures (Stays(w0, w, a) || Goner(w0, w, a)) && (a in w0.pins ==> Stays(w0, w, a))
    {
      if Stays(w0, w1, a) {
        assert Stays(w1, w, a) || Goner(w1, w, a);
      } else {
        assert Goner(w0, w1, a);
        if a in w.live { assert w.live[a].id >= w1.nextId || (a in w1.live && w.live[a].id == w1.live[a].id); }
      }
    }
    forall a | a in w.live && !(a in w0.live && w.live[a].id == w0.live[a].id) ensures w.live[a].id >= w0.nextId {
      if a in w1.live && w.live[a].id == w1.live[a].id {
        assert w1.live[a].id >= w0.nextId;
      }
    }
  }

  lemma SoundOn(w0: World, w1: World, r: Outcome)
    requires Fit(w0) && Later(w0, w1) && Sound(w1, r)
    ensures Sound(w0, r)
  {
    hide Fit;
    hide Later;
    if r.Fine? { LaterOn(w0, w1, r.w); }
  }

  lemma {:induction false} MadeSound(w: World, fd: int, a: Addr)
    requires Fit(w) && a !in w.live
    ensures Sound(w, Fine(Made(w, fd, a)))
  {
  }

  /** One object changes, and nothing else that counts. */
  lemma ObjectSound(w: World, v: World, a: Addr, o: Fd)
    requires Fit(w) && a in w.live && v.live == w.live[a := o]
    requires v.pins == w.pins && v.nextId == w.nextId && v.destroyed == w.destroyed
    requires o.id == w.live[a].id && o.rc >= 1 && o.rc >= w.pins[a] && (w.live[a].canceled ==> StaysOut(w.live[a], o))
    ensures Sound(w, Fine(v))
  {
    forall b | b in w.live ensures Stays(w, v, b) {
    }
    assert Later(w, v);
  }

  lemma RefSound(w: World, a: Addr)
    requires Fit(w) && a in w.live
    ensures Sound(w, Fine(WithRc(w, a, w.live[a].rc + 1)))
  {
    hide Later;
    ObjectSound(w, WithRc(w, a, w.live[a].rc + 1), a, w.live[a].(rc := w.live[a].rc + 1));
  }

  /** A slot is given back, or taken in an object that is not canceled. */
  lemma SlotSound(w: World, a: Addr, ev: EvType, f: Option<Frame>)
    requires Fit(w) && a in w.live && (f.None? || !w.live[a].canceled)
    ensures Sound(w, Fine(WithSlot(w, a, ev, f)))
  {
    hide Later;
    ObjectSound(w, WithSlot(w, a, ev, f), a, w.live[a].SetSlot(ev, f));
  }

  lemma CancelSound(w: World, a: Addr)
    requires Fit(w) && a in w.live
    ensures Sound(w, Fine(Canceled(w, a)))
  {
    hide Later;
    ObjectSound(w, Canceled(w, a), a, w.live[a].(canceled := true));
  }

  lemma DropSound(w: World, a: Addr)
    requires Fit(w) && a in w.live && w.live[a].rc > w.pins[a]
    ensures Sound(w, Fine(Dropped(w, a)))
  {
    hide Later;
    if w.live[a].rc > 1 {
      ObjectSound(w, Dropped(w, a), a, w.live[a].(rc := w.live[a].rc - 1));
    } else {
      DestroyedSound(w, a);
    }
  }

  lemma DestroyedSound(w: World, a: Addr)
    requires Fit(w) && a in w.live && a !in w.pins
    ensures Sound(w, Fine(Destroyed(w, a)))
  {
    hide Closing;
    var v := Destroyed(w, a);
    forall b | b in w.live ensures if b == a then Goner(w, v, b) else Stays(w, v, b) {
    }
    assert Later(w, v);
  }

  lemma {:induction false} TraceSound(w: World, trace: seq<Step>)
    requires Fit(w)
    ensures Sound(w, Fine(w.(trace := trace)))
  {
  }

  lemma HeldFit(w: World, a: Addr)
    requires Fit(w) && a in w.live
    ensures Fit(Held(w, a)) && a in Held(w, a).pins
  {
  }

  /** Whatever happens while a reference is held, as far as it can be seen before
      and after. */
  lemma HeldSound(w: World, a: Addr, x: World)
    requires Fit(w) && a in w.live && Fit(x) && Later(Held(w, a), x)
    ensures Sound(w, LetGo(x, a))
  {
    hide Dropped;
    hide Later;
    Unpinned(w, a, x);
    var v := x.(pins := x.pins - multiset{a});
    DropSound(v, a);
    LaterOn(w, v, Dropped(v, a));
  }

  lemma Unpinned(w: World, a: Addr, x: World)
    requires Fit(w) && a in w.live && Fit(x) && Later(Held(w, a), x)
    ensures var v := x.(pins := x.pins - multiset{a});
            v.pins == w.pins && Fit(v) && a in v.live && v.live[a].rc > v.pins[a] && Later(w, v)
  {
    hide Fit;
    hide Later;
    PinsBack(w, a, x);
    UnpinnedFit(x, a);
    UnpinnedLater(w, a, x, x.(pins := w.pins));
  }

  lemma PinsBack(w: World, a: Addr, x: World)
    requires a in w.live && Later(Held(w, a), x)
    ensures x.pins == w.pins + multiset{a} && x.pins - multiset{a} == w.pins
  {
  }

  lemma UnpinnedFit(x: World, a: Addr)
    requires Fit(x) && a in x.pins
    ensures var v := x.(pins := x.pins - multiset{a}); Fit(v) && a in v.live && v.live[a].rc > v.pins[a]
  {
  }

  lemma UnpinnedLater(w: World, a: Addr, x: World, v: World)
    requires Fit(w) && a in w.live && Later(Held(w, a), x) && v == x.(pins := w.pins)
    ensures Later(w, v)
  {
    var h := Held(w, a);
    forall b | b in w.live
      ensures (Stays(w, v, b) || Goner(w, v, b)) && (b in w.pins ==> Stays(w, v, b))
    {
      assert Stays(h, x, b) || Goner(h, x, b);
      assert b in w.pins ==> b in h.pins && Stays(h, x, b);
    }
    forall b | b in v.live && !(b in w.live && v.live[b].id == w.live[b].id) ensures v.live[b].id >= w.nextId {
      assert b in x.live && !(b in h.live && x.live[b].id == h.live[b].id);
    }
  }

  /** Whatever the program does is sound. */
  lemma {:induction false} DoesAllSound(w: World, ops: seq<Op>)
    requires Fit(w)
    ensures Sound(w, DoesAll(w, ops))
    decreases ops, 0
  {
    hide Fit;
    hide Later;
    if ops == [] {
      LaterSelf(w);
    } else {
      DoesSound(w, ops[0]);
      var r := Does(w, ops[0]);
      if r.Fine? {
        DoesAllSound(r.w, ops[1..]);
        SoundOn(w, r.w, DoesAll(r.w, ops[1..]));
      }
    }
  }

  lemma {:induction false} DoesSound(w: World, op: Op)
    requires Fit(w)
    ensures Sound(w, Does(w, op))
    decreases op, 1
  {
    hide Fit;
    hide Later;
    hide Dropped;
    hide WithSlot;
    hide Made;
    hide Cancels;
    var v := w.(trace := w.trace + [Did(op)]);
    TraceSound(w, v.trace);
    if Allowed(v.live, v.pins, op) {
      match op {
        case New(fd, a) => MadeSound(v, fd, a);
        case Ref(a) => RefSound(v, a);
        case Unref(a) => DropSound(v, a);
        case Listen(a, ev, frame) => SlotSound(v, a, ev, Some(frame));
        case Cancel(a, _, _) => if v.live[a].canceled { LaterSelf(v); } else { CancelsSound(v, op); }
      }
      SoundOn(w, v, Does(w, op));
    }
  }

  lemma {:induction false} CancelsSound(w: World, op: Op)
    requires Fit(w) && op.Cancel? && op.addr in w.live
    ensures Sound(w, Cancels(w, op))
    decreases op, 0
  {
    hide Fit;
    hide Later;
    hide Held;
    hide Resumes;
    hide LetGo;
    var a, id, v := op.addr, w.live[op.addr].id, Canceled(w, op.addr);
    CancelSound(w, a);
    HeldFit(v, a);
    ResumesSound(Held(v, a), a, id, Read, op.onRead);
    var r := Resumes(Held(v, a), a, id, Read, op.onRead);
    if r.Fine? {
      ResumesSound(r.w, a, id, Write, op.onWrite);
      var s := Resumes(r.w, a, id, Write, op.onWrite);
      if s.Fine? {
        LaterOn(Held(v, a), r.w, s.w);
        HeldSound(v, a, s.w);
        SoundOn(w, v, LetGo(s.w, a));
      }
    }
  }

  lemma {:induction false} ResumesSound(w: World, a: Addr, id: nat, ev: EvType, script: seq<Op>)
    requires Fit(w)
    ensures Sound(w, Resumes(w, a, id, ev, script))
    decreases script, 1
  {
    hide Fit;
    hide Later;
    hide WithSlot;
    LaterSelf(w);
    if a in w.live && w.live[a].id == id && w.live[a].Slot(ev).Some? {
      var v := WithSlot(w, a, ev, None);
      SlotSound(w, a, ev, None);
      TraceSound(v, Woken(w, a, ev).trace);
      LaterOn(w, v, Woken(w, a, ev));
      DoesAllSound(Woken(w, a, ev), script);
      SoundOn(w, Woken(w, a, ev), DoesAll(Woken(w, a, ev), script));
    }
  }

  /** The two assertions that end a cancel: both slots are free once both coroutines
      have run, because a canceled object is not waited on again. */
  lemma CancelEmpties(w: World, op: Op)
    requires Fit(w) && op.Cancel? && op.addr in w.live
    ensures var a := op.addr;
            var r := Resumes(Held(Canceled(w, a), a), a, w.live[a].id, Read, op.onRead);
            r.Fine? ==>
              && a in r.w.live && r.w.live[a].id == w.live[a].id && Fit(r.w)
              && var s := Resumes(r.w, a, w.live[a].id, Write, op.onWrite);
                 s.Fine? ==>
                   a in s.w.live && a in s.w.pins && s.w.live[a].GetState().IsEmpty() && s.w.live[a].canceled
  {
    hide Fit;
    hide Resumes;
    hide Held;
    var a, id, v := op.addr, w.live[op.addr].id, Canceled(w, op.addr);
    CancelSound(w, a);
    HeldFit(v, a);
    HeldObject(v, a);
    ResumedOut(Held(v, a), a, id, Read, op.onRead);
    ResumesSound(Held(v, a), a, id, Read, op.onRead);
    var r := Resumes(Held(v, a), a, id, Read, op.onRead);
    if r.Fine? {
      ResumedOut(r.w, a, id, Write, op.onWrite);
      ResumesSound(r.w, a, id, Write, op.onWrite);
    }
  }

  lemma HeldObject(w: World, a: Addr)
    requires a in w.live
    ensures a in Held(w, a).live && Held(w, a).live[a] == w.live[a].(rc := w.live[a].rc + 1)
  {
  }

  /** Nobody waits in a served slot of a canceled object. */
  lemma {:induction false} ResumedOut(w: World, a: Addr, id: nat, ev: EvType, script: seq<Op>)
    requires Fit(w) && a in w.live && a in w.pins && w.live[a].id == id && w.live[a].canceled
    ensures var r := Resumes(w, a, id, ev, script);
            r.Fine? ==> Stays(w, r.w, a) && r.w.live[a].Slot(ev).None?
  {
    hide Fit;
    hide WithSlot;
    LaterSelf(w);
    if w.live[a].Slot(ev).Some? {
      var v := Woken(w, a, ev);
      SlotSound(w, a, ev, None);
      TraceSound(WithSlot(w, a, ev, None), v.trace);
      LaterOn(w, WithSlot(w, a, ev, None), v);
      SlotFree(w, a, ev);
      DoesAllSound(v, script);
      if DoesAll(v, script).Fine? { LaterStays(w, v, DoesAll(v, script), a); }
    }
  }

  lemma SlotFree(w: World, a: Addr, ev: EvType)
    requires a in w.live && w.live[a].Slot(ev).Some?
    ensures var v := Woken(w, a, ev); v.pins == w.pins && a in v.live && v.live[a] == w.live[a].SetSlot(ev, None)
  {
  }

  lemma LaterStays(w: World, v: World, r: Outcome, a: Addr)
    requires Fit(w) && a in w.live && a in w.pins && Later(w, v) && a in v.live && a in v.pins && Sound(v, r) && r.Fine?
    ensures Stays(w, r.w, a) && Stays(v, r.w, a)
  {
    LaterOn(w, v, r.w);
  }

  lemma ServesSound(w: World, e: Event)
    requires Fit(w)
    ensures Sound(w, Serves(w, e))
  {
    hide Fit;
    hide Later;
    hide Held;
    hide Resumes;
    hide LetGo;
    if Lives(w, e) {
      var h := Held(w, e.addr);
      HeldFit(w, e.addr);
      ServesSlotSound(h, e, Read);
      var r := ServesSlot(h, e, Read);
      if r.Fine? {
        ServesSlotSound(r.w, e, Write);
        var s := ServesSlot(r.w, e, Write);
        if s.Fine? {
          LaterOn(h, r.w, s.w);
          HeldSound(w, e.addr, s.w);
        }
      }
    } else {
      LaterSelf(w);
    }
  }

  lemma ServesSlotSound(w: World, e: Event, ev: EvType)
    requires Fit(w)
    ensures Sound(w, ServesSlot(w, e, ev))
  {
    hide Fit;
    hide Later;
    hide Resumes;
    LaterSelf(w);
    if Reports(e.revents, ev) {
      ResumesSound(w, e.addr, e.id, ev, if ev == Read then e.onRead else e.onWrite);
    }
  }

  lemma {:induction false} ServesAllSound(w: World, batch: seq<Event>)
    requires Fit(w)
    ensures Sound(w, ServesAll(w, batch))
    decreases batch
  {
    hide Fit;
    hide Later;
    hide Serves;
    if batch == [] {
      LaterSelf(w);
    } else {
      ServesSound(w, batch[0]);
      var r := Serves(w, batch[0]);
      if r.Fine? {
        ServesAllSound(r.w, batch[1..]);
        SoundOn(w, r.w, ServesAll(r.w, batch[1..]));
      }
    }
  }

  /** One turn ends well, with every reference given back that the loop took, or
      at a step that the program must not take. */
  lemma {:induction false} TurnsSound(w: World, t: Turn, order: seq<Addr>)
    requires Fit(w)
    ensures var r := Turns(w, t, order); Fit(r.w) && Real(r) && (r.Fine? ==> r.w.pins == w.pins)
  {
    hide Fit;
    hide DoesAll;
    hide ServesAll;
    hide Batch;
    DoesAllSound(w, t.timeouts);
    var r := DoesAll(w, t.timeouts);
    if r.Fine? {
      var v := Applied(r.w.(destroyed := {}), order);
      AppliedFit(r.w, order);
      ServesAllSound(v, Batch(v.live, t.picks));
    }
  }

  lemma AppliedFit(w: World, order: seq<Addr>)
    requires Fit(w)
    ensures Fit(Applied(w.(destroyed := {}), order))
  {
  }

  /** So does every run. */
  lemma {:induction false} GoesSound(w: World, turns: seq<Turn>, orders: seq<seq<Addr>>)
    requires Fit(w) && |orders| == |turns|
    ensures var r := Goes(w, turns, orders); Fit(r.w) && Real(r) && (r.Fine? ==> r.w.pins == w.pins)
    decreases |turns|
  {
    hide Fit;
    hide Turns;
    if turns == [] {
    } else {
      var n := |turns| - 1;
      GoesSound(w, turns[..n], orders[..n]);
      var r := Goes(w, turns[..n], orders[..n]);
      if r.Fine? { TurnsSound(r.w, turns[n], orders[n]); }
    }
  }

  // ---------------------------------------------------------------- by address and by identity

  /** The loop's record of destroyed addresses tells whether the entry's object still lives. */
  ghost predicate Tracked(e: Event, w: World) {
    e.id < w.nextId && (e.addr in w.destroyed <==> !Lives(w, e))
  }

  /** It goes on to do so, however the address is used again. */
  lemma TrackedLater(e: Event, w0: World, w: World)
    requires Fit(w0) && Tracked(e, w0) && Later(w0, w)
    ensures Tracked(e, w)
  {
    if Lives(w0, e) { assert Stays(w0, w, e.addr) || Goner(w0, w, e.addr); }
  }
}
