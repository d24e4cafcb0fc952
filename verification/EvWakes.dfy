/** Who is resumed, and why: told by wait slots and event bits alone. Whoever waits
    when an event of his is reported has been resumed by the end of the turn. */
module EvWakes {
  import opened Bytes
  import opened EvState
  import opened EvRun

  /** A coroutine waits in a slot of the object with this identity. */
  ghost predicate Waits(w: World, a: Addr, id: nat, ev: EvType, f: Frame) {
    a in w.live && w.live[a].id == id && (if ev == Read then w.live[a].readFrame else w.live[a].writeFrame) == Some(f)
  }

  /** Since an earlier moment the trace has only grown, and whoever waited still
      waits there or has been resumed. */
  ghost predicate Since(w0: World, w: World) {
    && w0.trace <= w.trace
    && forall a, id, ev, f :: Waits(w0, a, id, ev, f) ==>
                                Waits(w, a, id, ev, f) || Woke(id, ev, f) in w.trace[|w0.trace|..]
  }

  /** No two objects have the same descriptor. */
  ghost predicate Apart(w: World) {
    forall a, b :: a in w.live && b in w.live && w.live[a].fd == w.live[b].fd ==> a == b
  }

  ghost predicate Follows(w0: World, w: World) { Since(w0, w) && (Apart(w0) ==> Apart(w)) }

  lemma FollowsSelf(w: World)
    ensures Follows(w, w)
  {
  }

  lemma FollowsOn(w0: World, w1: World, w: World)
    requires Follows(w0, w1) && Follows(w1, w)
    ensures Follows(w0, w)
  {
    forall a, id, ev, f | Waits(w0, a, id, ev, f) && !Waits(w, a, id, ev, f)
      ensures Woke(id, ev, f) in w.trace[|w0.trace|..]
    {
      MoreTrace(w0.trace, w1.trace, w.trace, Woke(id, ev, f));
    }
  }

  lemma MoreTrace(s: seq<Step>, t: seq<Step>, u: seq<Step>, x: Step)
    requires s <= t <= u
    ensures x in t[|s|..] || x in u[|t|..] ==> x in u[|s|..]
  {
    if x in t[|s|..] {
      var i :| 0 <= i < |t[|s|..]| && t[|s|..][i] == x;
      assert u[|s|..][i] == x;
    } else if x in u[|t|..] {
      var i :| 0 <= i < |u[|t|..]| && u[|t|..][i] == x;
      assert u[|s|..][|t| - |s| + i] == x;
    }
  }

  /** One object changes, but neither its descriptor nor who waits on it. */
  lemma ObjectFollows(w: World, v: World, a: Addr, o: Fd)
    requires a in w.live && v.live == w.live[a := o] && w.trace <= v.trace
    requires o.fd == w.live[a].fd && o.id == w.live[a].id
    requires o.readFrame == w.live[a].readFrame && o.writeFrame == w.live[a].writeFrame
    ensures Follows(w, v)
  {
  }

  /** A free slot is taken. */
  lemma TakenFollows(w: World, a: Addr, ev: EvType, f: Frame)
    requires a in w.live && w.live[a].Slot(ev).None?
    ensures Follows(w, WithSlot(w, a, ev, Some(f)))
  {
  }

  /** A taken slot becomes free, and the trace says so. */
  lemma WokenFollows(w: World, a: Addr, ev: EvType)
    requires a in w.live && w.live[a].Slot(ev).Some?
    ensures Follows(w, Woken(w, a, ev))
  {
    var v, s := Woken(w, a, ev), Woke(w.live[a].id, ev, w.live[a].Slot(ev).value);
    assert v.trace[|w.trace|..] == [s] && s in [s];
  }

  lemma DroppedFollows(w: World, a: Addr)
    requires a in w.live && (w.live[a].rc > 1 || w.live[a].GetState().IsEmpty())
    ensures Follows(w, Dropped(w, a))
  {
    hide Closing;
  }

  lemma MadeFollows(w: World, fd: int, a: Addr)
    requires a !in w.live && forall b <- w.live.Keys :: w.live[b].fd != fd
    ensures Follows(w, Made(w, fd, a))
  {
  }

  lemma LetGoFollows(w: World, a: Addr)
    ensures Follows(w, LetGo(w, a).w)
  {
    hide Dropped;
    hide Follows;
    var v := w.(pins := w.pins - multiset{a});
    SameFollows(w, v);
    if LetGo(w, a).Fine? {
      DroppedFollows(v, a);
      FollowsOn(w, v, Dropped(v, a));
    }
  }

  lemma SameFollows(w: World, v: World)
    requires v.live == w.live && w.trace <= v.trace
    ensures Follows(w, v)
  {
  }

  lemma {:induction false} DoesAllFollows(w: World, ops: seq<Op>)
    ensures Follows(w, DoesAll(w, ops).w)
    decreases ops, 0
  {
    hide Follows;
    FollowsSelf(w);
    if ops == [] {
    } else {
      DoesFollows(w, ops[0]);
      var r := Does(w, ops[0]);
      if r.Fine? {
        DoesAllFollows(r.w, ops[1..]);
        FollowsOn(w, r.w, DoesAll(r.w, ops[1..]).w);
      }
    }
  }

  lemma {:induction false} DoesFollows(w: World, op: Op)
    ensures Follows(w, Does(w, op).w)
    decreases op, 1
  {
    hide Follows;
    hide Dropped;
    hide WithSlot;
    hide Made;
    hide Cancels;
    var v := w.(trace := w.trace + [Did(op)]);
    SameFollows(w, v);
    if Allowed(v.live, v.pins, op) {
      match op {
        case New(fd, a) => MadeFollows(v, fd, a);
        case Ref(a) => ObjectFollows(v, WithRc(v, a, v.live[a].rc + 1), a, v.live[a].(rc := v.live[a].rc + 1));
        case Unref(a) => DroppedFollows(v, a);
        case Listen(a, ev, frame) => TakenFollows(v, a, ev, frame);
        case Cancel(a, _, _) => if v.live[a].canceled { FollowsSelf(v); } else { CancelsFollows(v, op); }
      }
      FollowsOn(w, v, Does(w, op).w);
    }
  }

  lemma {:induction false} CancelsFollows(w: World, op: Op)
    requires op.Cancel? && op.addr in w.live
    ensures Follows(w, Cancels(w, op).w)
    decreases op, 0
  {
    hide Follows;
    hide Resumes;
    hide LetGo;
    var a, id := op.addr, w.live[op.addr].id;
    var h := Held(Canceled(w, a), a);
    ObjectFollows(w, h, a, h.live[a]);
    ResumesFollows(h, a, id, Read, op.onRead);
    var r := Resumes(h, a, id, Read, op.onRead);
    FollowsOn(w, h, r.w);
    if r.Fine? {
      ResumesFollows(r.w, a, id, Write, op.onWrite);
      var s := Resumes(r.w, a, id, Write, op.onWrite);
      FollowsOn(w, r.w, s.w);
      LetGoFollows(s.w, a);
      FollowsOn(w, s.w, LetGo(s.w, a).w);
    }
  }

  lemma {:induction false} ResumesFollows(w: World, a: Addr, id: nat, ev: EvType, script: seq<Op>)
    ensures Follows(w, Resumes(w, a, id, ev, script).w)
    decreases script, 1
  {
    hide Follows;
    hide Woken;
    FollowsSelf(w);
    if a in w.live && w.live[a].id == id && w.live[a].Slot(ev).Some? {
      WokenFollows(w, a, ev);
      DoesAllFollows(Woken(w, a, ev), script);
      FollowsOn(w, Woken(w, a, ev), DoesAll(Woken(w, a, ev), script).w);
    }
  }

  // ---------------------------------------------------------------- one entry of a batch

  /** The bits that make a slot's coroutine run: EPOLLIN, EPOLLPRI and EPOLLRDHUP for
      the reader, EPOLLOUT for the writer, EPOLLERR and EPOLLHUP for both. */
  function Bits(ev: EvType): bv32 { if ev == Read then 0x201b else 0x1c }

  /** The entry makes the coroutine `f` run, which waits in this slot of its object. */
  ghost predicate Due(w: World, e: Event, ev: EvType, f: Frame) {
    Waits(w, e.addr, e.id, ev, f) && e.revents & Bits(ev) != 0
  }

  ghost predicate NotDue(w: World, e: Event, ev: EvType) { forall f :: !Due(w, e, ev, f) }

  /** The coroutine in this slot has been resumed first of all, or there is none to be resumed. */
  ghost predicate WakesFirst(w: World, e: Event, ev: EvType, v: World) {
    forall f :: Due(w, e, ev, f) ==> w.trace + [Woke(e.id, ev, f)] <= v.trace
  }

  /** What an entry of a batch does: it resumes the reader if that is due, then the
      writer if that is due by then, and nobody else on its own account. Whoever was
      due at first has been resumed in the end. */
  ghost predicate Wakes(w: World, e: Event, r: Outcome) {
    && WakesFirst(w, e, Read, r.w)
    && (NotDue(w, e, Read) ==> WakesFirst(w, e, Write, r.w))
    && (NotDue(w, e, Read) && NotDue(w, e, Write) ==> r == Fine(w))
    && (r.Fine? ==> forall ev, f :: Due(w, e, ev, f) ==> Woke(e.id, ev, f) in r.w.trace[|w.trace|..])
    && (exists m ::
          && Since(w, m) && WakesFirst(w, e, Read, m) && (NotDue(w, e, Read) ==> m.trace == w.trace)
          && (r.Fine? ==> WakesFirst(m, e, Write, r.w) && (NotDue(m, e, Write) ==> r.w.trace == m.trace)))
  }

  /** One slot. */
  lemma {:induction false} ServesSlotWakes(w: World, e: Event, ev: EvType)
    ensures var r := ServesSlot(w, e, ev);
            && Since(w, r.w) && WakesFirst(w, e, ev, r.w) && (NotDue(w, e, ev) ==> r == Fine(w))
  {
    hide Since;
    hide Resumes;
    hide Reports;
    hide Waits;
    hide Due;
    SinceSelf(w);
    DueWhen(w, e, ev);
    ResumesWakes(w, e.addr, e.id, ev, if ev == Read then e.onRead else e.onWrite);
  }

  lemma SinceSelf(w: World)
    ensures Since(w, w)
  {
  }

  lemma DueWhen(w: World, e: Event, ev: EvType)
    ensures if Reports(e.revents, ev) then forall f :: Due(w, e, ev, f) <==> Waits(w, e.addr, e.id, ev, f)
            else forall f :: !Due(w, e, ev, f)
  {
    hide Waits;
    hide Reports;
    hide Bits;
    ReportsBits(e.revents, ev);
  }

  lemma ReportsBits(revents: bv32, ev: EvType)
    ensures Reports(revents, ev) <==> revents & Bits(ev) != 0
  {
  }

  lemma WokenTrace(w: World, a: Addr, ev: EvType)
    requires a in w.live && w.live[a].Slot(ev).Some?
    ensures Woken(w, a, ev).trace == w.trace + [Woke(w.live[a].id, ev, w.live[a].Slot(ev).value)]
  {
  }

  /** A reference taken and given back at once. */
  lemma HeldLetGo(w: World, a: Addr)
    requires a in w.live && w.live[a].rc >= 1
    ensures LetGo(Held(w, a), a) == Fine(w)
  {
    assert w.pins + multiset{a} - multiset{a} == w.pins;
    assert Held(w, a).live[a := w.live[a]] == w.live;
  }

  lemma HeldFollows(w: World, e: Event)
    requires e.addr in w.live
    ensures var h := Held(w, e.addr);
            Since(w, h) && h.trace == w.trace && forall ev, f :: Due(h, e, ev, f) <==> Due(w, e, ev, f)
  {
  }

  lemma LetGoTrace(w: World, a: Addr)
    ensures LetGo(w, a).w.trace == w.trace
  {
  }

  lemma FirstIn(s: seq<Step>, x: Step, t: seq<Step>)
    requires s + [x] <= t
    ensures x in t[|s|..]
  {
    assert t[|s|..][0] == (s + [x])[|s|] == x;
  }

  /** Every entry of a batch does that. */
  lemma {:induction false} ServesWakes(w: World, e: Event)
    requires Lives(w, e) ==> w.live[e.addr].rc >= 1
    ensures Wakes(w, e, Serves(w, e))
  {
    hide Since;
    hide Held;
    hide LetGo;
    hide ServesSlot;
    hide Due;
    if Lives(w, e) {
      var h := Held(w, e.addr);
      HeldFollows(w, e);
      HeldLetGo(w, e.addr);
      ServesSlotWakes(h, e, Read);
      var r := ServesSlot(h, e, Read);
      SinceOn(w, h, r.w);
      if r.Fine? {
        ServesSlotWakes(r.w, e, Write);
        var s := ServesSlot(r.w, e, Write);
        LetGoTrace(s.w, e.addr);
        if s.Fine? { BothWoken(w, e, r.w, s.w); }
      }
    } else {
      NoneDue(w, e);
    }
  }

  lemma SinceOn(w0: World, w1: World, w: World)
    requires Since(w0, w1) && Since(w1, w)
    ensures Since(w0, w)
  {
    forall a, id, ev, f | Waits(w0, a, id, ev, f) && !Waits(w, a, id, ev, f)
      ensures Woke(id, ev, f) in w.trace[|w0.trace|..]
    {
      MoreTrace(w0.trace, w1.trace, w.trace, Woke(id, ev, f));
    }
  }

  lemma NoneDue(w: World, e: Event)
    requires !Lives(w, e)
    ensures Wakes(w, e, Fine(w))
  {
    FollowsSelf(w);
    assert forall ev, f :: !Due(w, e, ev, f);
    assert Since(w, w) && WakesFirst(w, e, Read, w) && w.trace == w.trace;
  }

  /** Whoever was due at first: the reader is resumed first; the writer may be
      resumed by then, and otherwise still is due. */
  lemma {:induction false} BothWoken(w: World, e: Event, m: World, v: World)
    requires Since(w, m) && WakesFirst(w, e, Read, m) && m.trace <= v.trace && WakesFirst(m, e, Write, v)
    ensures forall ev, f :: Due(w, e, ev, f) ==> Woke(e.id, ev, f) in v.trace[|w.trace|..]
  {
    forall ev, f | Due(w, e, ev, f) ensures Woke(e.id, ev, f) in v.trace[|w.trace|..] {
      if ev == Read {
        FirstIn(w.trace, Woke(e.id, ev, f), m.trace);
      } else if Waits(m, e.addr, e.id, ev, f) {
        FirstIn(m.trace, Woke(e.id, ev, f), v.trace);
      }
      MoreTrace(w.trace, m.trace, v.trace, Woke(e.id, ev, f));
    }
  }

  // ---------------------------------------------------------------- a batch, a turn

  lemma {:induction false} ServesFollows(w: World, e: Event)
    ensures Follows(w, Serves(w, e).w)
  {
    hide Follows;
    hide LetGo;
    hide Resumes;
    FollowsSelf(w);
    if Lives(w, e) {
      var h := Held(w, e.addr);
      ObjectFollows(w, h, e.addr, h.live[e.addr]);
      SlotFollows(h, e, Read);
      var r := ServesSlot(h, e, Read);
      FollowsOn(w, h, r.w);
      if r.Fine? {
        SlotFollows(r.w, e, Write);
        var s := ServesSlot(r.w, e, Write);
        FollowsOn(w, r.w, s.w);
        LetGoFollows(s.w, e.addr);
        FollowsOn(w, s.w, LetGo(s.w, e.addr).w);
      }
    }
  }

  lemma SlotFollows(w: World, e: Event, ev: EvType)
    ensures Follows(w, ServesSlot(w, e, ev).w)
  {
    hide Follows;
    hide Resumes;
    FollowsSelf(w);
    ResumesFollows(w, e.addr, e.id, ev, if ev == Read then e.onRead else e.onWrite);
  }

  /** Whoever an entry of the batch makes run when the batch begins. */
  ghost predicate AllWoken(w: World, batch: seq<Event>, v: World) {
    && w.trace <= v.trace
    && forall e, ev, f :: e in batch && Due(w, e, ev, f) ==> Woke(e.id, ev, f) in v.trace[|w.trace|..]
  }

  lemma {:induction false} ServesAllWakes(w: World, batch: seq<Event>)
    requires Fit(w)
    ensures Follows(w, ServesAll(w, batch).w)
    ensures ServesAll(w, batch).Fine? ==> AllWoken(w, batch, ServesAll(w, batch).w)
    decreases batch
  {
    hide Fit;
    hide Serves;
    FollowsSelf(w);
    if batch == [] {
    } else {
      ServesSound(w, batch[0]);
      ServesFollows(w, batch[0]);
      FitRc(w);
      ServesWakes(w, batch[0]);
      var r := Serves(w, batch[0]);
      if r.Fine? {
        ServesAllWakes(r.w, batch[1..]);
        FollowsOn(w, r.w, ServesAll(r.w, batch[1..]).w);
        if ServesAll(r.w, batch[1..]).Fine? { MoreWoken(w, batch, r.w, ServesAll(r.w, batch[1..]).w); }
      }
    }
  }

  lemma FitRc(w: World)
    requires Fit(w)
    ensures forall a :: a in w.live ==> w.live[a].rc >= 1
  {
  }

  lemma {:induction false} MoreWoken(w: World, batch: seq<Event>, m: World, v: World)
    requires batch != [] && Since(w, m) && AllWoken(m, batch[1..], v)
    requires forall ev, f :: Due(w, batch[0], ev, f) ==> Woke(batch[0].id, ev, f) in m.trace[|w.trace|..]
    ensures AllWoken(w, batch, v)
  {
    forall e, ev, f | e in batch && Due(w, e, ev, f) ensures Woke(e.id, ev, f) in v.trace[|w.trace|..] {
      MoreTrace(w.trace, m.trace, v.trace, Woke(e.id, ev, f));
      if e != batch[0] {
        assert e in batch[1..];
        assert Waits(m, e.addr, e.id, ev, f) ==> Due(m, e, ev, f);
      }
    }
  }

  /** The entry for a reported descriptor that someone waits on. */
  lemma {:induction false} BatchHas(w: World, picks: seq<Pick>, p: Pick, a: Addr)
    requires Apart(w) && p in picks && WaitsOn(w.live, p.fd, a)
    ensures Event(p.revents, a, w.live[a].id, p.onRead, p.onWrite) in Batch(w.live, picks)
  {
    var n := |picks| - 1;
    if p == picks[n] {
      assert WaitedOn(w.live, p.fd) == Some(a);
    } else {
      assert p in picks[..n];
      BatchHas(w, picks[..n], p, a);
    }
  }

  /** Whoever waits when the batch is taken and is reported. */
  ghost predicate TurnWoken(u: World, picks: seq<Pick>, v: World) {
    && u.trace <= v.trace
    && forall p, a, id, ev, f ::
         p in picks && Waits(u, a, id, ev, f) && u.live[a].fd == p.fd && p.revents & Bits(ev) != 0
         ==> Woke(id, ev, f) in v.trace[|u.trace|..]
  }

  /** No wake-up is lost: whoever waits when the kernel is asked, and whose events it
      reports, has been resumed when the turn has ended well, whatever the coroutines
      of other objects did before it was his turn. */
  lemma {:induction false} TurnWakes(w: World, t: Turn, order: seq<Addr>)
    requires Fit(w) && Apart(w)
    ensures var r, u := Turns(w, t, order), DoesAll(w, t.timeouts);
            w.trace <= r.w.trace && (r.Fine? ==> u.Fine? && TurnWoken(u.w, t.picks, r.w))
  {
    hide Fit;
    hide DoesAll;
    hide ServesAll;
    hide Batch;
    DoesAllSound(w, t.timeouts);
    DoesAllFollows(w, t.timeouts);
    var u := DoesAll(w, t.timeouts);
    if u.Fine? {
      var v := Applied(u.w.(destroyed := {}), order);
      AppliedFit(u.w, order);
      ServesAllWakes(v, Batch(v.live, t.picks));
      if Turns(w, t, order).Fine? { BatchWoken(u.w, v, t.picks, Turns(w, t, order).w); }
    }
  }

  /** A turn keeps descriptors apart, and takes nothing back from the trace. */
  lemma {:induction false} TurnsApart(w: World, t: Turn, order: seq<Addr>)
    requires Fit(w) && Apart(w)
    ensures Apart(Turns(w, t, order).w) && w.trace <= Turns(w, t, order).w.trace
  {
    hide Fit;
    hide DoesAll;
    hide ServesAll;
    hide Batch;
    hide Apart;
    DoesAllSound(w, t.timeouts);
    DoesAllFollows(w, t.timeouts);
    var u := DoesAll(w, t.timeouts);
    if u.Fine? {
      var v := Applied(u.w.(destroyed := {}), order);
      AppliedFit(u.w, order);
      SameFollows(u.w, v);
      ServesAllWakes(v, Batch(v.live, t.picks));
    }
  }

  /** Turn `i` of a run lost no wake-up. */
  ghost predicate NoneLost(w: World, turns: seq<Turn>, orders: seq<seq<Addr>>, i: nat)
    requires |orders| == |turns| && i < |turns|
  {
    var r, v := Goes(w, turns[..i], orders[..i]), Goes(w, turns[..i + 1], orders[..i + 1]);
    && r.Fine? && v.Fine?
    && var u := DoesAll(r.w, turns[i].timeouts); u.Fine? && TurnWoken(u.w, turns[i].picks, v.w)
  }

  /** In a run that ends well no turn loses one. */
  lemma {:induction false} GoesWakes(w: World, turns: seq<Turn>, orders: seq<seq<Addr>>)
    requires Fit(w) && Apart(w) && |orders| == |turns|
    ensures var r := Goes(w, turns, orders);
            Apart(r.w) && (r.Fine? ==> forall i :: 0 <= i < |turns| ==> NoneLost(w, turns, orders, i))
    decreases |turns|
  {
    hide Fit;
    hide Apart;
    hide Turns;
    hide DoesAll;
    hide TurnWoken;
    if turns == [] {
    } else {
      var n := |turns| - 1;
      var r := Goes(w, turns[..n], orders[..n]);
      GoesWakes(w, turns[..n], orders[..n]);
      GoesSound(w, turns[..n], orders[..n]);
      if r.Fine? {
        TurnsApart(r.w, turns[n], orders[n]);
        TurnWakes(r.w, turns[n], orders[n]);
        assert turns[..n + 1] == turns && orders[..n + 1] == orders;
        forall i | 0 <= i < n && Goes(w, turns, orders).Fine? ensures NoneLost(w, turns, orders, i) {
          EarlierTurn(w, turns, orders, n, i);
        }
      }
    }
  }

  lemma {:induction false} EarlierTurn(w: World, turns: seq<Turn>, orders: seq<seq<Addr>>, n: nat, i: nat)
    requires |orders| == |turns| && i < n <= |turns| && NoneLost(w, turns[..n], orders[..n], i)
    ensures NoneLost(w, turns, orders, i)
  {
    hide Goes;
    hide DoesAll;
    hide TurnWoken;
    assert turns[..n][..i] == turns[..i] && turns[..n][..i + 1] == turns[..i + 1] && turns[..n][i] == turns[i];
    assert orders[..n][..i] == orders[..i] && orders[..n][..i + 1] == orders[..i + 1];
  }

  /** Turns go on in order, up to the first that goes wrong. */
  lemma GoesOn(w: World, turns: seq<Turn>, orders: seq<seq<Addr>>, t: Turn, order: seq<Addr>)
    requires |orders| == |turns|
    ensures Goes(w, [], []) == Fine(w)
    ensures Goes(w, turns + [t], orders + [order])
            == var r := Goes(w, turns, orders); if r.Fine? then Turns(r.w, t, order) else r
  {
    hide Turns;
    assert (turns + [t])[..|turns|] == turns && (orders + [order])[..|orders|] == orders;
  }

  lemma {:induction false} BatchWoken(u: World, v: World, picks: seq<Pick>, x: World)
    requires Apart(u) && v.live == u.live && v.trace == u.trace && AllWoken(v, Batch(v.live, picks), x)
    ensures TurnWoken(u, picks, x)
  {
    hide Batch;
    hide Apart;
    forall p, a, id, ev, f
      | p in picks && Waits(u, a, id, ev, f) && u.live[a].fd == p.fd && p.revents & Bits(ev) != 0
      ensures Woke(id, ev, f) in x.trace[|u.trace|..]
    {
      assert WaitsOn(u.live, p.fd, a);
      BatchHas(u, picks, p, a);
      assert Due(v, Event(p.revents, a, id, p.onRead, p.onWrite), ev, f);
    }
  }

  /** A batch is made entry by entry: for a descriptor that someone waits on one
      entry with its object, the reported bits and its scripts, otherwise none. */
  lemma BatchMeans(w: World, picks: seq<Pick>, p: Pick)
    requires Apart(w)
    ensures Batch(w.live, []) == []
    ensures var more := Batch(w.live, picks + [p]);
            || (more == Batch(w.live, picks)
                && forall a :: a in w.live && w.live[a].fd == p.fd ==>
                                 w.live[a].readFrame.None? && w.live[a].writeFrame.None?)
            || (exists a :: && a in w.live && w.live[a].fd == p.fd
                            && (w.live[a].readFrame.Some? || w.live[a].writeFrame.Some?)
                            && more == Batch(w.live, picks)
                                       + [Event(p.revents, a, w.live[a].id, p.onRead, p.onWrite)])
  {
    assert (picks + [p])[..|picks|] == picks;
    var a := WaitedOn(w.live, p.fd);
    if a.None? {
      forall b | b in w.live && w.live[b].fd == p.fd
        ensures w.live[b].readFrame.None? && w.live[b].writeFrame.None?
      {
        assert !WaitsOn(w.live, p.fd, b);
      }
    }
  }

  // ---------------------------------------------------------------- one operation

  /** A reference is given back: the object loses one, or is destroyed with the last
      if nobody waits on it, and then its descriptor is no longer registered. */
  ghost predicate GivesBack(w: World, a: Addr, r: Outcome)
    requires a in w.live
  {
    var o := w.live[a];
    if o.rc > 1 then r == Fine(w.(live := w.live[a := Fd(o.readFrame, o.writeFrame, o.fd, o.rc - 1, o.canceled, o.id)]))
    else
      && o.readFrame.None? && o.writeFrame.None?
      && r == Fine(w.(live := w.live - {a}, changes := w.changes - {a}, destroyed := w.destroyed + {a},
                      calls := w.calls + if a in w.changes && (w.changes[a].read || w.changes[a].write)
                         then [Call(Del, o.fd, Reg(0, a, o.id))] else []))
  }

  /** A coroutine takes a slot; the state of both slots before the first change is saved. */
  ghost predicate Takes(w: World, a: Addr, ev: EvType, f: Frame, r: Outcome)
    requires a in w.live
  {
    var o := w.live[a];
    r == Fine(w.(
      live := w.live[a := if ev == Read then o.(readFrame := Some(f)) else o.(writeFrame := Some(f))],
      changes := if a in w.changes then w.changes
                 else w.changes[a := State(o.readFrame.Some?, o.writeFrame.Some?)]))
  }

  /** Both coroutines that wait on the object are resumed, the reader first, and
      nobody waits on it again. */
  ghost predicate WakesAll(w: World, a: Addr, r: Outcome)
    requires a in w.live
  {
    var id := w.live[a].id;
    && w.trace <= r.w.trace
    && (forall f :: Waits(w, a, id, Read, f) ==> w.trace + [Woke(id, Read, f)] <= r.w.trace)
    && (w.live[a].readFrame.None? ==>
          forall f :: Waits(w, a, id, Write, f) ==> w.trace + [Woke(id, Write, f)] <= r.w.trace)
    && (r.Fine? ==>
          && (forall ev, f :: Waits(w, a, id, ev, f) ==> Woke(id, ev, f) in r.w.trace[|w.trace|..])
          && (a in r.w.live && r.w.live[a].id == id ==>
                r.w.live[a].canceled && r.w.live[a].readFrame.None? && r.w.live[a].writeFrame.None?))
  }

  /** What each operation does, and when it must not be asked for. */
  ghost predicate Means(w: World, op: Op, r: Outcome) {
    var v := w.(trace := w.trace + [Did(op)]);
    match op
    case New(fd, a) =>
      if a in w.live || (exists b :: b in w.live && w.live[b].fd == fd) then r == Refused(v, op)
      else r == Fine(v.(live := w.live[a := Fd(None, None, fd, 1, false, w.nextId)], nextId := w.nextId + 1))
    case Ref(a) =>
      if a !in w.live then r == Refused(v, op)
      else r == Fine(v.(live := w.live[a := w.live[a].(rc := w.live[a].rc + 1)]))
    case Unref(a) =>
      if a !in w.live || w.live[a].rc <= w.pins[a]
         || (w.live[a].rc <= 1 && (w.live[a].readFrame.Some? || w.live[a].writeFrame.Some?)) then r == Refused(v, op)
      else GivesBack(v, a, r)
    case Listen(a, ev, f) =>
      if a !in w.live || w.live[a].canceled
         || (if ev == Read then w.live[a].readFrame else w.live[a].writeFrame).Some? then r == Refused(v, op)
      else Takes(v, a, ev, f, r)
    case Cancel(a, _, _) =>
      if a !in w.live then r == Refused(v, op)
      else if w.live[a].canceled then r == Fine(v)
      else WakesAll(v, a, r)
  }

  lemma {:induction false} DoesMeans(w: World, op: Op)
    requires Fit(w)
    ensures Means(w, op, Does(w, op))
  {
    hide Fit;
    hide Cancels;
    hide WakesAll;
    var v := w.(trace := w.trace + [Did(op)]);
    TraceSound(w, v.trace);
    if op.Cancel? && op.addr in w.live && !w.live[op.addr].canceled { CancelWakes(v, op); }
  }

  lemma {:induction false} CancelWakes(w: World, op: Op)
    requires Fit(w) && op.Cancel? && op.addr in w.live
    ensures WakesAll(w, op.addr, Cancels(w, op))
  {
    hide Fit;
    hide Resumes;
    hide LetGo;
    hide Held;
    var a, id := op.addr, w.live[op.addr].id;
    var h := Held(Canceled(w, a), a);
    CanceledHeld(w, a);
    CancelEmpties(w, op);
    CancelSound(w, a);
    HeldFit(Canceled(w, a), a);
    ResumesWakes(h, a, id, Read, op.onRead);
    ResumesSound(h, a, id, Read, op.onRead);
    var r := Resumes(h, a, id, Read, op.onRead);
    if r.Fine? {
      ResumesWakes(r.w, a, id, Write, op.onWrite);
      var s := Resumes(r.w, a, id, Write, op.onWrite);
      LetGoTrace(s.w, a);
      if s.Fine? {
        BothOut(h, a, id, r.w, s.w);
        Left(s.w, a);
      }
    }
  }

  lemma CanceledHeld(w: World, a: Addr)
    requires a in w.live
    ensures var h := Held(Canceled(w, a), a);
            && a in h.live && h.trace == w.trace && h.live[a] == w.live[a].(canceled := true, rc := w.live[a].rc + 1)
            && forall ev, f :: Waits(h, a, w.live[a].id, ev, f) <==> Waits(w, a, w.live[a].id, ev, f)
  {
  }

  lemma {:induction false} ResumesWakes(w: World, a: Addr, id: nat, ev: EvType, script: seq<Op>)
    ensures var r := Resumes(w, a, id, ev, script);
            && Since(w, r.w) && (forall f :: Waits(w, a, id, ev, f) ==> w.trace + [Woke(id, ev, f)] <= r.w.trace)
            && ((forall f :: !Waits(w, a, id, ev, f)) ==> r == Fine(w))
  {
    hide Woken;
    FollowsSelf(w);
    if a in w.live && w.live[a].id == id && w.live[a].Slot(ev).Some? {
      var v := Woken(w, a, ev);
      WokenFollows(w, a, ev);
      WokenTrace(w, a, ev);
      DoesAllFollows(v, script);
      SinceOn(w, v, DoesAll(v, script).w);
      assert Waits(w, a, id, ev, w.live[a].Slot(ev).value);
    }
  }

  lemma {:induction false} BothOut(w: World, a: Addr, id: nat, m: World, v: World)
    requires Since(w, m) && m.trace <= v.trace
    requires forall f :: Waits(w, a, id, Read, f) ==> w.trace + [Woke(id, Read, f)] <= m.trace
    requires forall f :: Waits(m, a, id, Write, f) ==> m.trace + [Woke(id, Write, f)] <= v.trace
    ensures forall ev, f :: Waits(w, a, id, ev, f) ==> Woke(id, ev, f) in v.trace[|w.trace|..]
  {
    forall ev, f | Waits(w, a, id, ev, f) ensures Woke(id, ev, f) in v.trace[|w.trace|..] {
      if ev == Read {
        FirstIn(w.trace, Woke(id, ev, f), m.trace);
      } else if Waits(m, a, id, ev, f) {
        FirstIn(m.trace, Woke(id, ev, f), v.trace);
      }
      MoreTrace(w.trace, m.trace, v.trace, Woke(id, ev, f));
    }
  }

  lemma Left(w: World, a: Addr)
    requires a in w.live
    ensures var r := LetGo(w, a);
            r.Fine? && a in r.w.live ==> r.w.live[a] == w.live[a].(rc := r.w.live[a].rc)
  {
  }

  // ---------------------------------------------------------------- scripts

  /** If a coroutine waits there, it leaves the slot, which the trace records, and runs
      its script; otherwise nothing happens. */
  ghost predicate Runs(w: World, a: Addr, id: nat, ev: EvType, wanted: bool, script: seq<Op>, r: Outcome) {
    if wanted && exists f :: Waits(w, a, id, ev, f) then
      exists f ::
        && Waits(w, a, id, ev, f)
        && r == DoesAll(w.(live := w.live[a := if ev == Read then w.live[a].(readFrame := None)
                                               else w.live[a].(writeFrame := None)],
                           changes := if a in w.changes then w.changes
                                      else w.changes[a := State(w.live[a].readFrame.Some?, w.live[a].writeFrame.Some?)],
                           trace := w.trace + [Woke(id, ev, f)]), script)
    else r == Fine(w)
  }

  /** The loop, or a cancel, gives back the reference it took. */
  ghost predicate Returns(w: World, a: Addr, r: Outcome) {
    var v := w.(pins := w.pins - multiset{a});
    if a !in w.live || (w.live[a].rc <= 1 && (w.live[a].readFrame.Some? || w.live[a].writeFrame.Some?)) then
      r == Abandoned(v, a)
    else GivesBack(v, a, r)
  }

  /** The two slots of an object, one after the other, under a reference of the loop's own. */
  ghost predicate RunsBoth(w: World, a: Addr, first: bool, onRead: seq<Op>, second: bool, onWrite: seq<Op>, r: Outcome)
    requires a in w.live
  {
    var h := w.(live := w.live[a := w.live[a].(rc := w.live[a].rc + 1)], pins := w.pins + multiset{a});
    var id := w.live[a].id;
    exists m :: && Runs(h, a, id, Read, first, onRead, m)
                && if !m.Fine? then r == m
                   else exists n :: && Runs(m.w, a, id, Write, second, onWrite, n)
                                    && if n.Fine? then Returns(n.w, a, r) else r == n
  }

  lemma {:induction false} ResumesRuns(w: World, a: Addr, id: nat, ev: EvType, wanted: bool, script: seq<Op>)
    ensures Runs(w, a, id, ev, wanted, script, if wanted then Resumes(w, a, id, ev, script) else Fine(w))
  {
    if a in w.live && w.live[a].id == id && w.live[a].Slot(ev).Some? {
      assert Waits(w, a, id, ev, w.live[a].Slot(ev).value);
    }
  }

  lemma LetGoReturns(w: World, a: Addr)
    ensures Returns(w, a, LetGo(w, a))
  {
  }

  /** An entry of a batch is its object's two slots, as far as their bits are reported. */
  lemma {:induction false} ServesMeans(w: World, e: Event)
    ensures if e.addr in w.live && w.live[e.addr].id == e.id then
              RunsBoth(w, e.addr, e.revents & 0x201b != 0, e.onRead, e.revents & 0x1c != 0, e.onWrite, Serves(w, e))
            else Serves(w, e) == Fine(w)
  {
    hide Runs;
    hide Returns;
    hide Resumes;
    hide LetGo;
    if Lives(w, e) {
      var h := Held(w, e.addr);
      ReportsBits(e.revents, Read);
      ReportsBits(e.revents, Write);
      ResumesRuns(h, e.addr, e.id, Read, Reports(e.revents, Read), e.onRead);
      var m := ServesSlot(h, e, Read);
      if m.Fine? {
        ResumesRuns(m.w, e.addr, e.id, Write, Reports(e.revents, Write), e.onWrite);
        var n := ServesSlot(m.w, e, Write);
        if n.Fine? { LetGoReturns(n.w, e.addr); }
      }
    }
  }

  /** A cancel is both slots of an object that is canceled from now on. */
  lemma {:induction false} CancelsMeans(w: World, op: Op)
    requires op.Cancel? && op.addr in w.live
    ensures RunsBoth(w.(live := w.live[op.addr := w.live[op.addr].(canceled := true)]), op.addr, true, op.onRead,
                     true, op.onWrite, Cancels(w, op))
  {
    hide Runs;
    hide Returns;
    hide Resumes;
    hide LetGo;
    var a, id := op.addr, w.live[op.addr].id;
    var h := Held(Canceled(w, a), a);
    ResumesRuns(h, a, id, Read, true, op.onRead);
    var m := Resumes(h, a, id, Read, op.onRead);
    if m.Fine? {
      ResumesRuns(m.w, a, id, Write, true, op.onWrite);
      var n := Resumes(m.w, a, id, Write, op.onWrite);
      if n.Fine? { LetGoReturns(n.w, a); }
    }
  }

  /** Scripts and batches go on in order, up to the first step that goes wrong. */
  lemma {:induction false} DoesAllOn(w: World, ops: seq<Op>, op: Op)
    ensures DoesAll(w, []) == Fine(w)
    ensures DoesAll(w, ops + [op]) == var r := DoesAll(w, ops); if r.Fine? then Does(r.w, op) else r
    decreases |ops|
  {
    hide Does;
    if ops == [] {
      assert [op][1..] == [];
    } else {
      assert (ops + [op])[1..] == ops[1..] + [op];
      if Does(w, ops[0]).Fine? { DoesAllOn(Does(w, ops[0]).w, ops[1..], op); }
    }
  }

  lemma {:induction false} ServesAllOn(w: World, batch: seq<Event>, e: Event)
    ensures ServesAll(w, []) == Fine(w)
    ensures ServesAll(w, batch + [e]) == var r := ServesAll(w, batch); if r.Fine? then Serves(r.w, e) else r
    decreases |batch|
  {
    hide Serves;
    if batch == [] {
      assert [e][1..] == [];
    } else {
      assert (batch + [e])[1..] == batch[1..] + [e];
      if Serves(w, batch[0]).Fine? { ServesAllOn(Serves(w, batch[0]).w, batch[1..], e); }
    }
  }

  /** A turn that gets past its timeouts forgets which objects were destroyed, tells
      the kernel of every change, and serves the batch. */
  lemma TurnsMeans(w: World, t: Turn, order: seq<Addr>)
    ensures var u := DoesAll(w, t.timeouts);
            Turns(w, t, order)
            == if !u.Fine? then u
               else ServesAll(World(u.w.live, map[], {}, u.w.pins, u.w.nextId,
                                    u.w.calls + CallsFor(u.w.live, u.w.changes, order), u.w.trace),
                              Batch(u.w.live, t.picks))
  {
    hide DoesAll;
    hide ServesAll;
    hide Batch;
  }
}
