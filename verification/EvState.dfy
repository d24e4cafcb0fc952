/** The objects of the event loop, its cache of interest changes, and what the
    kernel knows. */
module EvState {
  import opened Bytes

  type Addr = nat // address of an Fd object; a freed address may be handed out again
  type Frame = nat // a suspended coroutine

  const EPOLLIN: bv32 := 0x1
  const EPOLLPRI: bv32 := 0x2
  const EPOLLOUT: bv32 := 0x4
  const EPOLLERR: bv32 := 0x8
  const EPOLLHUP: bv32 := 0x10
  const EPOLLRDHUP: bv32 := 0x2000
  const EPOLLET: bv32 := 0x8000_0000

  const EVENTS_READ: bv32 := EPOLLIN | EPOLLRDHUP | EPOLLPRI
  const EVENTS_WRITE: bv32 := EPOLLOUT
  const EVENTS_ERR: bv32 := EPOLLERR | EPOLLHUP

  datatype EvType = Read | Write

  /** Which of the two wait slots are taken. */
  datatype State = State(read: bool, write: bool) {
    predicate IsEmpty() { !read && !write }

    function ToEvents(): bv32 {
      var events: bv32 := (if read then EVENTS_READ else 0) | (if write then EVENTS_WRITE else 0);
      if events != 0 then events | EPOLLET else events
    }
  }

  /** A live Fd object. `id` tells apart objects that reuse an address. */
  datatype Fd = Fd(readFrame: Option<Frame>, writeFrame: Option<Frame>, fd: int, rc: nat, canceled: bool, id: nat) {
    function GetState(): State { State(readFrame.Some?, writeFrame.Some?) }

    function GetEvents(): bv32 {
      var read: bv32 := if readFrame.Some? then EVENTS_READ else 0;
      var events: bv32 := read | (if writeFrame.Some? then EVENTS_WRITE else 0);
      if events != 0 then events | EPOLLET else events
    }

    function Slot(ev: EvType): Option<Frame> { if ev == Read then readFrame else writeFrame }

    function SetSlot(ev: EvType, f: Option<Frame>): Fd {
      if ev == Read then this.(readFrame := f) else this.(writeFrame := f)
    }
  }

  /** Two states ask for the same events only if they are the same, and for none only if both slots are free. */
  lemma EventsTell(s: State, t: State)
    ensures s.ToEvents() == t.ToEvents() <==> s == t
    ensures s.ToEvents() == 0 <==> s.IsEmpty()
  {
  }

  /** Which bits they ask for: EPOLLIN, EPOLLPRI and EPOLLRDHUP (0x2003) for a
      reader, EPOLLOUT (0x4) for a writer, and EPOLLET with either. */
  lemma EventBits(s: State)
    ensures s.ToEvents() & 0x2003 == if s.read then 0x2003 else 0
    ensures s.ToEvents() & 0x4 == if s.write then 0x4 else 0
    ensures s.ToEvents() & 0x8000_0000 == if s.read || s.write then 0x8000_0000 else 0
    ensures s.ToEvents() & 0x7fff_dff8 == 0
  {
  }

  /** What the kernel keeps for a registered descriptor. */
  datatype Reg = Reg(events: bv32, addr: Addr, id: nat)

  datatype CtlOp = Add | Mod | Del
  datatype Call = Call(op: CtlOp, fd: int, reg: Reg)

  /** The state of the wait slots that the kernel has been told about. */
  function Told(live: map<Addr, Fd>, changes: map<Addr, State>, a: Addr): State
    requires a in live
  {
    if a in changes then changes[a] else live[a].GetState()
  }

  /** The kernel's interest in a live object is the told state; it has no other
      interests. Every descriptor belongs to one object. */
  ghost predicate Coherent(live: map<Addr, Fd>, owner: map<int, Addr>, changes: map<Addr, State>,
                           kernel: map<int, Reg>)
  {
    && changes.Keys <= live.Keys
    && (forall a :: a in live ==> live[a].fd in owner && owner[live[a].fd] == a)
    && (forall a :: a in live ==> Interest(live[a], a, Told(live, changes, a), kernel))
    && (forall fd :: fd in kernel ==> kernel[fd].addr in live && live[kernel[fd].addr].fd == fd)
  }

  ghost predicate Interest(o: Fd, a: Addr, s: State, kernel: map<int, Reg>) {
    if s.IsEmpty() then o.fd !in kernel
    else o.fd in kernel && kernel[o.fd] == Reg(s.ToEvents(), a, o.id)
  }

  /** These are the events of an object's taken slots, edge-triggered, and no others. */
  ghost predicate AsksFor(o: Fd, a: Addr, reg: Reg) {
    && reg.addr == a && reg.id == o.id
    && reg.events & 0x2003 == (if o.readFrame.Some? then 0x2003 else 0)
    && reg.events & 0x4 == (if o.writeFrame.Some? then 0x4 else 0)
    && reg.events & 0x8000_0000 != 0 && reg.events & 0x7fff_dff8 == 0
  }

  /** The kernel watches the object exactly if a coroutine waits on it, and for what it waits for. */
  ghost predicate Subscribed(o: Fd, a: Addr, kernel: map<int, Reg>) {
    && (o.fd in kernel <==> o.readFrame.Some? || o.writeFrame.Some?)
    && (o.fd in kernel ==> AsksFor(o, a, kernel[o.fd]))
  }

  lemma InterestMeans(o: Fd, a: Addr, kernel: map<int, Reg>)
    requires Interest(o, a, o.GetState(), kernel)
    ensures Subscribed(o, a, kernel)
  {
    hide State.ToEvents;
    EventBits(o.GetState());
  }

  // ---------------------------------------------------------------- the calls of apply_change

  /** The call that brings the kernel from state `s` to state `t`, if one is needed. */
  function CallFor(o: Fd, a: Addr, s: State, t: State): seq<Call> {
    if s == t then []
    else [Call(if s.IsEmpty() then Add else if t.IsEmpty() then Del else Mod, o.fd, Reg(t.ToEvents(), a, o.id))]
  }

  /** No call when the slots are as the kernel was told; otherwise one, which adds
      the descriptor, removes it, or tells what is now waited for. */
  lemma CallMeans(o: Fd, a: Addr, s: State)
    ensures var calls := CallFor(o, a, s, o.GetState());
            if s.read == o.readFrame.Some? && s.write == o.writeFrame.Some? then calls == []
            else
              && |calls| == 1 && calls[0].fd == o.fd
              && calls[0].op == (if !s.read && !s.write then Add
                                 else if o.readFrame.None? && o.writeFrame.None? then Del else Mod)
              && (calls[0].op != Del ==> AsksFor(o, a, calls[0].reg))
  {
    hide State.ToEvents;
    EventBits(o.GetState());
  }

  /** The calls for one entry of a change list. */
  function CallsAt(live: map<Addr, Fd>, changes: map<Addr, State>, a: Addr): seq<Call> {
    if a in live && a in changes then CallFor(live[a], a, changes[a], live[a].GetState()) else []
  }

  /** The calls for the entries of a change list, in the given order. */
  function CallsFor(live: map<Addr, Fd>, changes: map<Addr, State>, order: seq<Addr>): seq<Call> {
    if order == [] then []
    else CallsFor(live, changes, order[..|order| - 1]) + CallsAt(live, changes, order[|order| - 1])
  }

  /** The entries with the given keys. */
  function Only(m: map<Addr, State>, keys: set<Addr>): map<Addr, State> {
    map a | a in m && a in keys :: m[a]
  }

  /** `order` lists the members of `s`, each once. */
  ghost predicate OrderOf(order: seq<Addr>, s: set<Addr>)
    decreases |order|
  {
    if order == [] then s == {}
    else order[|order| - 1] in s && OrderOf(order[..|order| - 1], s - {order[|order| - 1]})
  }

  /** The next entry of the change list has been handled. */
  lemma OneMore(live: map<Addr, Fd>, changes: map<Addr, State>, order: seq<Addr>, todo: set<Addr>, a: Addr,
                calls: seq<Call>)
    requires OrderOf(order, changes.Keys - todo) && a in todo && todo <= changes.Keys
    ensures OrderOf(order + [a], changes.Keys - (todo - {a}))
    ensures calls + CallsFor(live, changes, order + [a])
            == calls + CallsFor(live, changes, order) + CallsAt(live, changes, a)
    ensures Only(changes, todo) - {a} == Only(changes, todo - {a})
  {
    hide *;
    OrderMore(changes.Keys, order, todo, a);
    CallsMore(live, changes, order, a);
    Assoc(calls, CallsFor(live, changes, order), CallsAt(live, changes, a));
    OnlyLess(changes, todo, a);
  }

  lemma OrderMore(keys: set<Addr>, order: seq<Addr>, todo: set<Addr>, a: Addr)
    requires OrderOf(order, keys - todo) && a in todo && todo <= keys
    ensures OrderOf(order + [a], keys - (todo - {a}))
  {
    assert (order + [a])[..|order|] == order;
    assert keys - (todo - {a}) - {a} == keys - todo;
  }

  lemma CallsMore(live: map<Addr, Fd>, changes: map<Addr, State>, order: seq<Addr>, a: Addr)
    ensures CallsFor(live, changes, order + [a]) == CallsFor(live, changes, order) + CallsAt(live, changes, a)
  {
    hide CallsAt;
    assert (order + [a])[..|order|] == order;
  }

  lemma OnlyLess(m: map<Addr, State>, todo: set<Addr>, a: Addr)
    ensures Only(m, todo) - {a} == Only(m, todo - {a})
  {
  }

  lemma NoneYet(live: map<Addr, Fd>, changes: map<Addr, State>, calls: seq<Call>)
    ensures OrderOf([], {}) && calls == calls + CallsFor(live, changes, [])
  {
  }

  /** The calls on one descriptor. */
  function On(calls: seq<Call>, fd: int): seq<Call> {
    if calls == [] then []
    else
      var last := calls[|calls| - 1];
      On(calls[..|calls| - 1], fd) + (if last.fd == fd then [last] else [])
  }

  lemma OnAppend(calls: seq<Call>, c: Call, fd: int)
    ensures On(calls + [c], fd) == On(calls, fd) + if c.fd == fd then [c] else []
  {
    assert (calls + [c])[..|calls|] == calls;
  }

  /** However the change list is ordered, each descriptor gets at most one call:
      none when its slots are back where they were, none when nothing changed. */
  lemma {:induction false} OneCallEach(live: map<Addr, Fd>, owner: map<int, Addr>, changes: map<Addr, State>,
                                       kernel: map<int, Reg>, order: seq<Addr>, keys: set<Addr>, a: Addr)
    requires Coherent(live, owner, changes, kernel) && OrderOf(order, keys) && keys <= changes.Keys && a in live
    ensures On(CallsFor(live, changes, order), live[a].fd) == if a in keys then CallsAt(live, changes, a) else []
    decreases |order|
  {
    if order == [] {
    } else {
      var b := order[|order| - 1];
      OneCallEach(live, owner, changes, kernel, order[..|order| - 1], keys - {b}, a);
      var before, now := CallsFor(live, changes, order[..|order| - 1]), CallsAt(live, changes, b);
      if now == [] {
        assert before + now == before;
      } else {
        OnAppend(before, now[0], live[a].fd);
      }
      assert owner[live[a].fd] == a && owner[live[b].fd] == b;
    }
  }

  // ---------------------------------------------------------------- keeping the kernel's view coherent

  lemma CoherentKeys(live: map<Addr, Fd>, owner: map<int, Addr>, changes: map<Addr, State>, kernel: map<int, Reg>)
    requires Coherent(live, owner, changes, kernel)
    ensures changes.Keys <= live.Keys
  {
  }

  /** The kernel when the state of one object's slots has been brought to its notice. */
  function Brought(kernel: map<int, Reg>, o: Fd, a: Addr, s: State): map<int, Reg> {
    var t := o.GetState();
    if s == t then kernel
    else if t.IsEmpty() then kernel - {o.fd}
    else kernel[o.fd := Reg(t.ToEvents(), a, o.id)]
  }

  lemma {:induction false} BroughtOk(live: map<Addr, Fd>, owner: map<int, Addr>, rest: map<Addr, State>,
                                     kernel: map<int, Reg>, a: Addr)
    requires Coherent(live, owner, rest, kernel) && a in rest
    ensures a in live && (rest[a].IsEmpty() <==> live[a].fd !in kernel)
    ensures Coherent(live, owner, rest - {a}, Brought(kernel, live[a], a, rest[a]))
  {
    hide Fd.GetState;
    hide State.ToEvents;
    hide State.IsEmpty;
    var o, k := live[a], Brought(kernel, live[a], a, rest[a]);
    assert Interest(o, a, Told(live, rest, a), kernel);
    forall b | b in live ensures Interest(live[b], b, Told(live, rest - {a}, b), k) {
      assert Interest(live[b], b, Told(live, rest, b), kernel);
      assert b != a ==> live[b].fd != o.fd;
    }
  }

  /** A new object, with a descriptor of its own. */
  lemma {:induction false} Fresh(live: map<Addr, Fd>, owner: map<int, Addr>, changes: map<Addr, State>, kernel: map<int,
                                 Reg>,
              a: Addr, o: Fd)
    requires Coherent(live, owner, changes, kernel) && a !in live && o.GetState().IsEmpty()
    requires forall b :: b in live ==> live[b].fd != o.fd
    ensures Coherent(live[a := o], owner[o.fd := a], changes, kernel)
  {
    var live1 := live[a := o];
    assert o.fd !in kernel;
    forall b | b in live1 ensures Interest(live1[b], b, Told(live1, changes, b), kernel) {
      if b != a { assert Interest(live[b], b, Told(live, changes, b), kernel); }
    }
  }

  /** Without waiting coroutines: the descriptor is registered only as long as a
      change is still to be applied, and forgetting both keeps the rest in order. */
  lemma {:induction false} NotRegistered(live: map<Addr, Fd>, owner: map<int, Addr>, changes: map<Addr, State>,
                                         kernel: map<int, Reg>,
                      a: Addr)
    requires Coherent(live, owner, changes, kernel) && a in live && live[a].GetState().IsEmpty()
    ensures live[a].fd in kernel <==> a in changes && !changes[a].IsEmpty()
    ensures Coherent(live, owner, changes - {a}, kernel - {live[a].fd})
    ensures live[a].fd !in kernel ==> kernel - {live[a].fd} == kernel
    ensures a !in changes ==> changes - {a} == changes
  {
    hide Fd.GetState;
    var changes1, kernel1 := changes - {a}, kernel - {live[a].fd};
    assert Interest(live[a], a, Told(live, changes, a), kernel);
    forall b | b in live ensures Interest(live[b], b, Told(live, changes1, b), kernel1) {
      assert Interest(live[b], b, Told(live, changes, b), kernel);
      assert b != a ==> live[b].fd != live[a].fd;
    }
  }

  /** An object goes whose descriptor is not registered. */
  lemma {:induction false} Gone(live: map<Addr, Fd>, owner: map<int, Addr>, changes: map<Addr, State>, kernel: map<int,
                                Reg>, a: Addr)
    requires Coherent(live, owner, changes, kernel) && a in live && live[a].fd !in kernel && a !in changes
    ensures Coherent(live - {a}, owner, changes, kernel)
  {
    var live1 := live - {a};
    forall b | b in live1 ensures Interest(live1[b], b, Told(live1, changes, b), kernel) {
      assert Interest(live[b], b, Told(live, changes, b), kernel);
    }
  }

  /** A slot of one object changes after its state has been saved. */
  lemma {:induction false} SlotChange(live: map<Addr, Fd>, owner: map<int, Addr>, changes: map<Addr, State>,
                                      kernel: map<int, Reg>,
                   a: Addr, o: Fd)
    requires Coherent(live, owner, changes, kernel) && a in live && o.fd == live[a].fd && o.id == live[a].id
    requires a in changes || o.GetState() == live[a].GetState()
    ensures Coherent(live[a := o], owner, changes, kernel)
  {
    var live1 := live[a := o];
    forall b | b in live1 ensures Interest(live1[b], b, Told(live1, changes, b), kernel) {
      assert Interest(live[b], b, Told(live, changes, b), kernel);
      assert Told(live1, changes, b) == Told(live, changes, b);
    }
  }

  lemma {:induction false} Saved(live: map<Addr, Fd>, owner: map<int, Addr>, changes: map<Addr, State>, kernel: map<int,
                                 Reg>, a: Addr)
    requires Coherent(live, owner, changes, kernel) && a in live && a !in changes
    ensures Coherent(live, owner, changes[a := live[a].GetState()], kernel)
  {
    var changes1 := changes[a := live[a].GetState()];
    forall b | b in live ensures Interest(live[b], b, Told(live, changes1, b), kernel) {
      assert Told(live, changes1, b) == Told(live, changes, b);
    }
  }
}
