/** The event loop: its cache of epoll interest changes, and the dispatch of epoll
    batches by address, while coroutines create, wait on, cancel and free objects. */
module EvLoop {
  import opened Bytes
  import opened EvState
  import opened EvRun
  import EvWakes

  class Loop {
    var live: map<Addr, Fd>
    var changes: map<Addr, State> // change_list
    var destroyed: set<Addr>
    var kernel: map<int, Reg>
    var pins: multiset<Addr>
    var nextId: nat

    ghost var owner: map<int, Addr> // whose descriptor it is
    ghost var calls: seq<Call>
    ghost var trace: seq<Step>

    ghost function View(): World
      reads this
    {
      World(live, changes, destroyed, pins, nextId, calls, trace)
    }

    /** The kernel knows what it has been told, and the objects are in order. */
    ghost predicate Valid()
      reads this
    {
      Coherent(live, owner, changes, kernel) && Fit(View())
    }

    /** The run has come to this outcome. */
    ghost predicate At(r: Outcome, ok: bool)
      reads this
    {
      Valid() && View() == r.w && (ok <==> r.Fine?)
    }

    constructor ()
      ensures Valid() && View() == World(map[], map[], {}, multiset{}, 0, [], []) && kernel == map[]
    {
      live, changes, destroyed, kernel, pins, nextId := map[], map[], {}, map[], multiset{}, 0;
      owner, calls, trace := map[], [], [];
    }

    /** epoll_ctl: adding needs an unregistered descriptor, the other two a registered one. */
    method EvCtl(op: CtlOp, fd: int, reg: Reg) returns (ok: bool)
      modifies `kernel, `calls
      ensures ok <==> if op == Add then fd !in old(kernel) else fd in old(kernel)
      ensures ok ==> kernel == if op == Del then old(kernel) - {fd} else old(kernel)[fd := reg]
      ensures ok ==> calls == old(calls) + [Call(op, fd, reg)]
      ensures !ok ==> kernel == old(kernel) && calls == old(calls)
    {
      ok := if op == Add then fd !in kernel else fd in kernel;
      if ok {
        kernel := if op == Del then kernel - {fd} else kernel[fd := reg];
        calls := calls + [Call(op, fd, reg)];
      }
    }

    // -------------------------------------------------------------- the cache

    method CacheChange(a: Addr)
      requires Coherent(live, owner, changes, kernel) && a in live
      modifies `changes
      ensures Coherent(live, owner, changes, kernel)
      ensures changes == if a in old(changes) then old(changes) else old(changes)[a := live[a].GetState()]
    {
      if a !in changes {
        Saved(live, owner, changes, kernel, a);
        changes := changes[a := live[a].GetState()];
      }
    }

    /** add_listener, before the coroutine suspends. */
    method AddListener(a: Addr, ev: EvType, frame: Frame)
      requires Valid() && a in live && !live[a].canceled && live[a].Slot(ev).None?
      modifies `live, `changes
      ensures Valid() && View() == WithSlot(old(View()), a, ev, Some(frame))
    {
      hide Coherent;
      hide Fit;
      SlotSound(View(), a, ev, Some(frame));
      CacheChange(a);
      SlotChange(live, owner, changes, kernel, a, live[a].SetSlot(ev, Some(frame)));
      live := live[a := live[a].SetSlot(ev, Some(frame))];
    }

    /** del_listener, after the coroutine has been resumed. */
    method DelListener(a: Addr, ev: EvType, frame: Frame)
      requires Valid() && a in live && live[a].Slot(ev) == Some(frame)
      modifies `live, `changes
      ensures Valid() && View() == WithSlot(old(View()), a, ev, None)
    {
      hide Coherent;
      hide Fit;
      SlotSound(View(), a, ev, None);
      CacheChange(a);
      SlotChange(live, owner, changes, kernel, a, live[a].SetSlot(ev, None));
      live := live[a := live[a].SetSlot(ev, None)];
    }

    /** One entry of the change list is brought to the kernel's notice; `rest`
        holds it and the entries still to come. */
    method ApplyOne(a: Addr, state: State, ghost rest: map<Addr, State>)
      requires Coherent(live, owner, rest, kernel) && a in rest && rest[a] == state
      modifies `kernel, `calls
      ensures Coherent(live, owner, rest - {a}, kernel)
      ensures calls == old(calls) + CallsAt(live, rest, a)
    {
      hide Coherent;
      hide State.ToEvents;
      BroughtOk(live, owner, rest, kernel, a);
      EventsOf(live[a]);
      var oldEvents := state.ToEvents();
      var newEvents := live[a].GetEvents();
      EventsTell(state, live[a].GetState());
      EventsTell(live[a].GetState(), state);
      if oldEvents == newEvents {
      } else if oldEvents == 0 {
        var ok := EvCtl(Add, live[a].fd, Reg(newEvents, a, live[a].id));
        assert ok;
      } else if newEvents == 0 {
        var ok := EvCtl(Del, live[a].fd, Reg(newEvents, a, live[a].id));
        assert ok;
      } else {
        var ok := EvCtl(Mod, live[a].fd, Reg(newEvents, a, live[a].id));
        assert ok;
      }
    }

    /** The loop over the change list. */
    method ApplyAll() returns (ghost order: seq<Addr>)
      requires Coherent(live, owner, changes, kernel)
      modifies `kernel, `calls
      ensures Coherent(live, owner, map[], kernel) && OrderOf(order, changes.Keys)
      ensures calls == old(calls) + CallsFor(live, changes, order)
    {
      hide Coherent;
      hide CallFor;
      hide CallsFor;
      hide OrderOf;
      CoherentKeys(live, owner, changes, kernel);
      NoneYet(live, changes, calls);
      order := [];
      var todo := changes.Keys;
      assert Only(changes, todo) == changes && changes.Keys - todo == {};
      while todo != {}
        invariant todo <= changes.Keys && Coherent(live, owner, Only(changes, todo), kernel)
        invariant OrderOf(order, changes.Keys - todo) && calls == old(calls) + CallsFor(live, changes, order)
        decreases |todo|
      {
        var a :| a in todo;
        OneMore(live, changes, order, todo, a, old(calls));
        ApplyOne(a, changes[a], Only(changes, todo));
        order, todo := order + [a], todo - {a};
      }
      assert changes.Keys - todo == changes.Keys && Only(changes, todo) == map[];
    }

    /** apply_change: afterwards the kernel's interest is what the slots say. An
        entry whose slots are back where they were issues no call. */
    method ApplyChange() returns (ghost order: seq<Addr>)
      requires Valid()
      modifies `kernel, `calls, `changes
      ensures Valid() && View() == Applied(old(View()), order) && OrderOf(order, old(changes).Keys)
      ensures forall a :: a in live ==> Interest(live[a], a, live[a].GetState(), kernel)
      ensures forall a :: a in live ==> Subscribed(live[a], a, kernel)
      ensures forall fd :: fd in kernel ==> kernel[fd].addr in live && live[kernel[fd].addr].fd == fd
    {
      order := ApplyAll();
      changes := map[];
      AllSubscribed();
    }

    lemma AllSubscribed()
      requires Coherent(live, owner, map[], kernel)
      ensures forall a :: a in live ==> Interest(live[a], a, live[a].GetState(), kernel)
      ensures forall a :: a in live ==> Subscribed(live[a], a, kernel)
    {
      hide Interest;
      hide Subscribed;
      forall a | a in live
        ensures Interest(live[a], a, live[a].GetState(), kernel) && Subscribed(live[a], a, kernel)
      {
        assert Told(live, map[], a) == live[a].GetState();
        InterestMeans(live[a], a, kernel);
      }
    }

    // -------------------------------------------------------------- objects

    method New(fd: int, a: Addr)
      requires Valid() && a !in live && forall b :: b in live ==> live[b].fd != fd
      modifies `live, `nextId, `owner
      ensures Valid() && View() == Made(old(View()), fd, a)
    {
      hide Coherent;
      hide Fit;
      MadeSound(View(), fd, a);
      Fresh(live, owner, changes, kernel, a, Fd(None, None, fd, 1, false, nextId));
      live := live[a := Fd(None, None, fd, 1, false, nextId)];
      owner := owner[fd := a];
      nextId := nextId + 1;
    }

    /** on_close_fd: the descriptor is not registered when it is closed. */
    method OnCloseFd(a: Addr)
      requires Coherent(live, owner, changes, kernel) && a in live && live[a].GetState().IsEmpty()
      modifies `kernel, `calls, `changes
      ensures Coherent(live, owner, changes, kernel) && changes == old(changes) - {a} && live[a].fd !in kernel
      ensures calls == old(calls) + Closing(old(View()), a)
    {
      hide Coherent;
      NotRegistered(live, owner, changes, kernel, a);
      if a in changes {
        var state := changes[a];
        changes := changes - {a};
        if !state.IsEmpty() {
          var ok := EvCtl(Del, live[a].fd, Reg(0, a, live[a].id));
          assert ok;
        }
      }
    }

    /** A field of an object changes that the kernel does not know of. */
    method SetObject(a: Addr, o: Fd)
      requires Coherent(live, owner, changes, kernel) && a in live
      requires o.fd == live[a].fd && o.id == live[a].id && o.GetState() == live[a].GetState()
      modifies `live
      ensures Coherent(live, owner, changes, kernel) && live == old(live)[a := o]
    {
      SlotChange(live, owner, changes, kernel, a, o);
      live := live[a := o];
    }

    method Ref(a: Addr)
      requires Valid() && a in live
      modifies `live
      ensures Valid() && View() == WithRc(old(View()), a, old(live)[a].rc + 1)
    {
      hide Coherent;
      hide Fit;
      RefSound(View(), a);
      SetObject(a, live[a].(rc := live[a].rc + 1));
    }

    /** free, for a reference that nobody else counts on: the object goes away
        with its last reference, unless a coroutine still waits on it. */
    method Unref(a: Addr) returns (ok: bool)
      requires Valid() && a in live && live[a].rc > pins[a]
      modifies `kernel, `calls, `changes, `live, `destroyed
      ensures ok <==> old(live)[a].rc > 1 || old(live)[a].GetState().IsEmpty()
      ensures Valid() && View() == if ok then Dropped(old(View()), a) else old(View())
    {
      hide Coherent;
      hide Fit;
      DropSound(View(), a);
      if live[a].rc > 1 {
        SetObject(a, live[a].(rc := live[a].rc - 1));
        return true;
      }
      ok := live[a].GetState().IsEmpty(); // assert()
      if ok { Destroy(a); }
    }

    method Destroy(a: Addr)
      requires Coherent(live, owner, changes, kernel) && a in live && live[a].GetState().IsEmpty()
      modifies `kernel, `calls, `changes, `live, `destroyed
      ensures Coherent(live, owner, changes, kernel) && View() == Destroyed(old(View()), a)
    {
      hide Coherent;
      OnCloseFd(a);
      assert live[a].fd !in kernel; // close()
      Gone(live, owner, changes, kernel, a);
      live := live - {a};
      destroyed := destroyed + {a};
    }

    /** The loop, or a cancel in progress, takes a reference of its own. */
    method Pin(a: Addr)
      requires Valid() && a in live
      modifies `live, `pins
      ensures Valid() && View() == Held(old(View()), a)
    {
      hide Coherent;
      hide Fit;
      HeldFit(View(), a);
      Ref(a);
      pins := pins + multiset{a};
    }

    method Unpin(a: Addr) returns (ok: bool)
      requires Valid() && a in live && a in pins
      modifies `kernel, `calls, `changes, `live, `destroyed, `pins
      ensures At(LetGo(old(View()), a), ok)
    {
      hide Coherent;
      hide Fit;
      hide Dropped;
      UnpinnedFit(View(), a);
      pins := pins - multiset{a};
      ok := Unref(a);
    }

    // -------------------------------------------------------------- coroutines

    /** do_resume: the coroutine leaves its wait slot and runs to its next suspension. */
    method Wake(a: Addr, ev: EvType, script: seq<Op>) returns (ok: bool)
      requires Valid() && a in live && live[a].Slot(ev).Some?
      modifies this
      ensures At(DoesAll(Woken(old(View()), a, ev), script), ok)
      decreases script, 1
    {
      hide Coherent;
      hide Fit;
      hide WithSlot;
      TraceSound(View(), trace + [Woke(live[a].id, ev, live[a].Slot(ev).value)]);
      DelListener(a, ev, live[a].Slot(ev).value);
      TraceSound(View(), trace + [Woke(old(live)[a].id, ev, old(live)[a].Slot(ev).value)]);
      trace := trace + [Woke(old(live)[a].id, ev, old(live)[a].Slot(ev).value)];
      ok := RunOps(script);
    }

    /** Runs what the program does, up to an operation that it must not ask for. */
    method RunOps(ops: seq<Op>) returns (ok: bool)
      requires Valid()
      modifies this
      ensures At(DoesAll(old(View()), ops), ok)
      decreases ops, 0
    {
      hide Coherent;
      hide Fit;
      hide Does;
      ok := true;
      var i := 0;
      assert ops[0..] == ops;
      while i < |ops| && ok
        invariant i <= |ops| && Valid()
        invariant if ok then DoesAll(old(View()), ops) == DoesAll(View(), ops[i..])
                  else At(DoesAll(old(View()), ops), false)
      {
        assert ops[i..][0] == ops[i] && ops[i..][1..] == ops[i + 1..];
        ok := Exec(ops[i]);
        i := i + 1;
      }
    }

    method Exec(op: Op) returns (ok: bool)
      requires Valid()
      modifies this
      ensures At(Does(old(View()), op), ok)
      decreases op, 3
    {
      hide Coherent;
      hide Fit;
      hide Cancels;
      hide WithSlot;
      hide Dropped;
      hide Made;
      TraceSound(View(), trace + [Did(op)]);
      trace := trace + [Did(op)];
      ok := Allowed(live, pins, op);
      if !ok { return; }
      match op
      case New(fd, a) => New(fd, a);
      case Ref(a) => Ref(a);
      case Unref(a) => ok := Unref(a);
      case Listen(a, ev, frame) => AddListener(a, ev, frame);
      case Cancel(a, _, _) => if !live[a].canceled { ok := Cancel(op); }
    }

    /** cancel, for an object not canceled before: both waiting coroutines run, and
        none may wait again. */
    method Cancel(op: Op) returns (ok: bool)
      requires Valid() && op.Cancel? && op.addr in live && !live[op.addr].canceled
      modifies this
      ensures At(Cancels(old(View()), op), ok) && EvWakes.WakesAll(old(View()), op.addr, Cancels(old(View()), op))
      decreases op, 2
    {
      hide EvWakes.WakesAll;
      EvWakes.CancelWakes(View(), op);
      hide Coherent;
      hide Fit;
      hide Resumes;
      hide LetGo;
      hide Held;
      var a := op.addr;
      CancelEmpties(View(), op);
      CancelSound(View(), a);
      HeldObject(Canceled(View(), a), a);
      SetObject(a, live[a].(canceled := true));
      Pin(a);
      ok := WakeIf(a, Read, true, op.onRead);
      if ok {
        ok := WakeIf(a, Write, true, op.onWrite);
        if ok {
          assert live[a].GetState().IsEmpty(); // assert()
          ok := Unpin(a);
        }
      }
    }

    method WakeIf(a: Addr, ev: EvType, wanted: bool, script: seq<Op>) returns (ok: bool)
      requires Valid() && a in live
      modifies this
      ensures At(if wanted then Resumes(old(View()), a, old(live)[a].id, ev, script) else Fine(old(View())), ok)
      decreases script, 2
    {
      ok := true;
      if live[a].Slot(ev).Some? && wanted { ok := Wake(a, ev, script); }
    }

    // -------------------------------------------------------------- the main loop

    /** The entries of an epoll batch: for each reported descriptor that is
        registered, the object that it was registered with. */
    method Wait(picks: seq<Pick>) returns (batch: seq<Event>)
      requires Valid() && changes == map[]
      requires forall a :: a in live ==> Interest(live[a], a, live[a].GetState(), kernel)
      ensures batch == Batch(live, picks)
    {
      hide Fit;
      batch := [];
      for i := 0 to |picks|
        invariant batch == Batch(live, picks[..i])
      {
        assert picks[..i + 1][..i] == picks[..i];
        var p := picks[i];
        Registered(p);
        if p.fd in kernel {
          batch := batch + [Event(p.revents, kernel[p.fd].addr, kernel[p.fd].id, p.onRead, p.onWrite)];
        }
      }
      assert picks[..|picks|] == picks;
    }

    /** The kernel tells exactly the objects that someone waits on. */
    lemma Registered(p: Pick)
      requires Coherent(live, owner, map[], kernel)
      ensures EventFor(live, p)
              == if p.fd in kernel then [Event(p.revents, kernel[p.fd].addr, kernel[p.fd].id, p.onRead, p.onWrite)]
                  else []
    {
      if p.fd in kernel {
        var a := kernel[p.fd].addr;
        assert Interest(live[a], a, Told(live, map[], a), kernel);
        assert WaitsOn(live, p.fd, a);
        assert owner[p.fd] == a && WaitedOn(live, p.fd) == Some(a);
      } else {
        forall a | a in live && live[a].fd == p.fd ensures live[a].GetState().IsEmpty() {
          assert Interest(live[a], a, Told(live, map[], a), kernel);
        }
      }
    }

    /** One wait slot of an object from the batch. A coroutine waiting there runs
        if its own events, or an error, are reported; nothing else runs. */
    method Serve(e: Event, ev: EvType) returns (ok: bool)
      requires Valid() && e.addr in live && live[e.addr].id == e.id
      modifies this
      ensures At(ServesSlot(old(View()), e, ev), ok)
    {
      hide Resumes;
      var wanted := e.revents & ((if ev == Read then EVENTS_READ else EVENTS_WRITE) | EVENTS_ERR) != 0;
      ok := WakeIf(e.addr, ev, wanted, if ev == Read then e.onRead else e.onWrite);
    }

    /** One entry of the batch, unless its address is on record as destroyed. The
        reader is resumed if one of its bits (0x2003) or an error (0x18) is reported,
        and then the writer, for 0x4 or an error, if it still waits. */
    method DispatchOne(e: Event) returns (ok: bool)
      requires Valid() && Tracked(e, View())
      modifies this
      ensures At(Serves(old(View()), e), ok) && EvWakes.Wakes(old(View()), e, Serves(old(View()), e))
    {
      hide EvWakes.Wakes;
      EvWakes.FitRc(View());
      EvWakes.ServesWakes(View(), e);
      ok := DispatchSlots(e);
    }

    method DispatchSlots(e: Event) returns (ok: bool)
      requires Valid() && Tracked(e, View())
      modifies this
      ensures At(Serves(old(View()), e), ok)
    {
      hide Coherent;
      hide Fit;
      hide ServesSlot;
      hide LetGo;
      hide Held;
      if e.addr in destroyed { return true; }
      HeldObject(View(), e.addr);
      HeldFit(View(), e.addr);
      Pin(e.addr);
      StillThere(View(), e, Read);
      ok := Serve(e, Read);
      if ok {
        StillThere(View(), e, Write);
        ok := Serve(e, Write);
        if ok { ok := Unpin(e.addr); }
      }
    }

    /** By address, and with the record of destroyed addresses, the batch is served
        as it would be by identity. */
    method Dispatch(batch: seq<Event>) returns (ok: bool)
      requires Valid() && destroyed == {} && forall e <- batch :: Lives(View(), e)
      modifies this
      ensures At(ServesAll(old(View()), batch), ok)
    {
      hide Coherent;
      hide Serves;
      hide Later;
      ok := true;
      var i := 0;
      assert batch[0..] == batch;
      while i < |batch| && ok
        invariant i <= |batch| && Valid()
        invariant if ok then ServesAll(old(View()), batch) == ServesAll(View(), batch[i..])
                  else At(ServesAll(old(View()), batch), false)
        invariant ok ==> forall e <- batch :: Tracked(e, View())
      {
        assert batch[i..][0] == batch[i] && batch[i..][1..] == batch[i + 1..];
        ghost var w := View();
        ServesSound(w, batch[i]);
        ok := DispatchOne(batch[i]);
        if ok {
          forall e | e in batch ensures Tracked(e, View()) { TrackedLater(e, w, View()); }
        }
        i := i + 1;
      }
    }

    /** One turn of the main loop. No wake-up is lost: whoever waits when the kernel is
        asked, and whose events it reports, has been resumed in the end. */
    method RunTurn(t: Turn) returns (ok: bool, ghost order: seq<Addr>)
      requires Valid()
      modifies this
      ensures At(Turns(old(View()), t, order), ok)
      ensures OrderOk(old(View()), t, order)
      ensures var u := DoesAll(old(View()), t.timeouts);
              ok ==> u.Fine? && EvWakes.TurnWoken(u.w, t.picks, View())
    {
      OwnDescriptors();
      ghost var w := View();
      ok, order := DoTurn(t);
      EvWakes.TurnWakes(w, t, order);
    }

    lemma OwnDescriptors()
      requires Coherent(live, owner, changes, kernel)
      ensures EvWakes.Apart(View())
    {
    }

    method DoTurn(t: Turn) returns (ok: bool, ghost order: seq<Addr>)
      requires Valid()
      modifies this
      ensures At(Turns(old(View()), t, order), ok)
      ensures OrderOk(old(View()), t, order)
    {
      hide Coherent;
      hide DoesAll;
      hide ServesAll;
      hide OrderOf;
      hide Batch;
      order := [];
      ok := RunOps(t.timeouts);
      if ok {
        AppliedFit(View(), []);
        destroyed := {};
        order := ApplyChange();
        var batch := Wait(t.picks);
        BatchLives(View(), t.picks);
        ok := Dispatch(batch);
      }
    }

    /** Any number of turns, or up to the one that goes wrong. In a run that ends well
        no turn loses a wake-up. */
    method Run(turns: seq<Turn>) returns (ok: bool, ghost orders: seq<seq<Addr>>)
      requires Valid()
      modifies this
      ensures |orders| <= |turns| && (ok ==> |orders| == |turns|)
      ensures At(Goes(old(View()), turns[..|orders|], orders), ok)
      ensures InOrder(old(View()), turns[..|orders|], orders)
      ensures ok ==> forall i :: 0 <= i < |turns| ==> EvWakes.NoneLost(old(View()), turns, orders, i)
    {
      hide Coherent;
      hide Goes;
      hide EvWakes.NoneLost;
      OwnDescriptors();
      ghost var w := View();
      ok, orders := DoTurns(turns);
      if ok {
        assert turns[..|turns|] == turns;
        EvWakes.GoesWakes(w, turns, orders);
      }
    }

    method DoTurns(turns: seq<Turn>) returns (ok: bool, ghost orders: seq<seq<Addr>>)
      requires Valid()
      modifies this
      ensures |orders| <= |turns| && (ok ==> |orders| == |turns|)
      ensures At(Goes(old(View()), turns[..|orders|], orders), ok)
      ensures InOrder(old(View()), turns[..|orders|], orders)
    {
      hide Coherent;
      hide Fit;
      hide OrderOk;
      hide Turns;
      ok, orders := true, [];
      var i := 0;
      while i < |turns| && ok
        invariant i == |orders| <= |turns| && At(Goes(old(View()), turns[..i], orders), ok)
        invariant InOrder(old(View()), turns[..i], orders)
      {
        ghost var order;
        ok, order := RunTurn(turns[i]);
        assert turns[..i + 1][..i] == turns[..i] && (orders + [order])[..i] == orders;
        orders := orders + [order];
        i := i + 1;
      }
    }
  }

  lemma EventsOf(o: Fd)
    ensures o.GetEvents() == o.GetState().ToEvents()
  {
  }

  /** The object of an entry is held while its slots are served. */
  lemma StillThere(w: World, e: Event, ev: EvType)
    requires Fit(w) && e.addr in w.pins && Lives(w, e)
    ensures var r := ServesSlot(w, e, ev);
            r.Fine? ==> e.addr in r.w.pins && Lives(r.w, e)
  {
    hide Fit;
    hide ServesSlot;
    ServesSlotSound(w, e, ev);
    if ServesSlot(w, e, ev).Fine? {
      assert e.addr in w.live && e.addr in w.pins;
      assert Stays(w, ServesSlot(w, e, ev).w, e.addr);
    }
  }

  lemma {:induction false} BatchLives(w: World, picks: seq<Pick>)
    ensures forall e <- Batch(w.live, picks) :: Lives(w, e)
  {
    if picks == [] {
    } else {
      BatchLives(w, picks[..|picks| - 1]);
    }
  }
}
