/** A whole add context: addresses are offered one by one, and flushed when a
    family's batch is full or when the caller ends the group. */
module AddCtxs {
  import opened Bytes
  import opened Netlink
  import opened IpsetMsg
  import opened Ipset
  import IpsetWire

  const NFNL_MSG_BATCH_BEGIN: u16 := 16
  const NFNL_MSG_BATCH_END: u16 := 17
  const NFNL_SUBSYS_NFTABLES: u16 := 10

  /** What is handed to the kernel. */
  datatype Traffic = Tests(msgs: seq<bytes>) | Adds(msgs: seq<bytes>)

  /** The addresses of one flush, and the replies to its test requests. */
  datatype Batch = Batch(v4: seq<bytes>, v6: seq<bytes>, answers: seq<bool>)

  predicate InBlacklist(ip: bytes, v4: bool)
    requires |ip| == IpLen(v4)
  {
    if v4 then ip[0] == 127 || ip[0] == 0
    else ip[..15] == Zeros(15) && (ip[15] == 0 || ip[15] == 1)
  }

  /** In network byte order: for IPv4 all of 0/8 and 127/8, for IPv6 the
      unspecified and the loopback address. */
  lemma BlacklistValues(ip: bytes, v4: bool)
    requires |ip| == IpLen(v4)
    ensures v4 ==> (InBlacklist(ip, v4) <==> Value(ip) < 0x100_0000 || 0x7f00_0000 <= Value(ip) < 0x8000_0000)
    ensures !v4 ==> (InBlacklist(ip, v4) <==> Value(ip) <= 1)
  {
    if v4 {
      FirstByte(ip);
    } else {
      ZerosValue(15);
      if Value(ip) <= 1 { ValueZero(ip[..15]); }
    }
  }

  /** The first byte of four is the highest. */
  lemma {:induction false} FirstByte(ip: bytes)
    requires |ip| == 4
    ensures ip[0] as int * 0x100_0000 <= Value(ip) < (ip[0] as int + 1) * 0x100_0000
  {
    var a, b, c := ip[..3], ip[..2], ip[..1];
    assert a[..2] == b && b[..1] == c && c[..0] == [];
    assert Value(c) == Value(c[..0]) * 256 + ip[0] as int && Value(c[..0]) == 0;
    assert Value(b) == Value(c) * 256 + ip[1] as int;
    assert Value(a) == Value(b) * 256 + ip[2] as int;
    assert Value(ip) == Value(a) * 256 + ip[3] as int;
  }

  lemma {:induction false} ZerosValue(n: nat)
    ensures Value(Zeros(n)) == 0
  {
    if n == 0 {
    } else {
      assert Zeros(n)[..n - 1] == Zeros(n - 1);
      ZerosValue(n - 1);
    }
  }

  lemma {:induction false} ValueZero(s: bytes)
    requires Value(s) == 0
    ensures s == Zeros(|s|)
  {
    if s == [] {
    } else {
      var n := |s| - 1;
      ValueZero(s[..n]);
      assert s == s[..n] + [s[n]];
    }
  }

  /** The answers that were received, for the messages that were sent. */
  function Known(answers: seq<bool>, n: nat): (r: seq<bool>)
    ensures |r| == 2 * IP_N && forall i :: 0 <= i < 2 * IP_N ==> (r[i] <==> i < n && i < |answers| && answers[i])
  {
    seq(2 * IP_N, i requires i >= 0 => i < n && i < |answers| && answers[i])
  }

  /** One family's test requests, one for each address. */
  ghost function TestsFor(side: Side, ips: seq<bytes>): seq<bytes>
    requires Testable(side, ips)
  {
    if ips == [] then [] else TestRequests(side.testFront, side.nft, side.v4, ips)
  }

  ghost predicate Testable(side: Side, ips: seq<bytes>) {
    ips == [] || (side.Made() && Addrs(side.v4, ips) && |side.testFront| < 0x1_0000)
  }

  /** The message for one family's missing addresses, if there are any. */
  ghost function AddsFor(side: Side, missing: seq<bytes>): seq<bytes>
    requires Fits(side, missing)
  {
    if missing == [] then []
    else [AddRequest(side.front, side.set0.ListKind(), Entries(side.nft, side.v4, missing))]
  }

  ghost predicate Fits(side: Side, missing: seq<bytes>) {
    missing == []
    || (Addrs(side.v4, missing) && 8 + |side.front| + |Entries(side.nft, side.v4, missing)| < 0x1_0000)
  }

  /** A message asks the kernel about this address. */
  ghost predicate Asks(side: Side, m: bytes, ip: bytes)
    requires |ip| == IpLen(side.v4)
  {
    var tail := TestTail(side.nft, side.v4, ip);
    && ReadTest(side.nft, side.v4, tail) == Some(ip) && Attrs(tail, 0).Some?
    && Message(m, side.set0.HeaderOf(side.v4, false, true, side.pid),
               side.set0.AttrsOf(false) + Attrs(tail, 0).value)
    && IpsetWire.IsTest(m, side.set0, side.v4, side.pid, ip)
  }

  /** A message asks the kernel to add exactly these addresses. */
  ghost predicate Wants(side: Side, m: bytes, ips: seq<bytes>)
    requires Addrs(side.v4, ips)
  {
    var list := Entries(side.nft, side.v4, ips);
    && AllReadAs(side.nft, side.v4, list, ips)
    && Message(m, side.set0.HeaderOf(side.v4, true, false, side.pid),
               side.set0.AttrsOf(true) + [Attr(side.set0.ListKind(), list)])
    && IpsetWire.IsAdd(m, side.set0, side.v4, side.pid, ips)
  }

  /** Parsed as netlink messages, the test requests ask about these addresses, in order. */
  lemma {:induction false} TestsRead(side: Side, ips: seq<bytes>, j: nat)
    requires Testable(side, ips) && j < |ips|
    ensures |TestsFor(side, ips)| == |ips| && Asks(side, TestsFor(side, ips)[j], ips[j])
  {
    hide Message;
    hide Built;
    hide TestTail;
    hide ReadTest;
    hide TestRequest;
    hide TestRequests;
    hide IpsetWire.IsTest;
    var header := side.set0.HeaderOf(side.v4, false, true, side.pid);
    TestRequestAt(side.testFront, side.nft, side.v4, ips, j);
    TestRequestRead(side.testFront, header, side.set0.AttrsOf(false), side.nft, side.v4, ips[j]);
    TestRequestIs(side, ips[j]);
  }

  /** Byte by byte it is a test request for the address. */
  lemma {:induction false} TestRequestIs(side: Side, ip: bytes)
    requires side.Made() && |side.testFront| < 0x1_0000 && |ip| == IpLen(side.v4)
    ensures IpsetWire.IsTest(TestRequest(side.testFront, side.nft, side.v4, ip), side.set0, side.v4, side.pid, ip)
  {
    hide Built;
    hide TestTail;
    hide ReadTest;
    hide IpsetWire.IsTest;
    hide SetName.HeaderOf;
    hide SetName.AttrsOf;
    TestTailRead(side.nft, side.v4, ip);
    IpsetWire.TestMessage(TestRequest(side.testFront, side.nft, side.v4, ip), side.testFront, side.set0, side.v4,
        side.pid, ip);
  }

  /** Parsed, the add request is for exactly the missing addresses. */
  lemma {:induction false} AddsRead(side: Side, missing: seq<bytes>)
    requires Fits(side, missing) && missing != [] && side.Made()
    ensures |AddsFor(side, missing)| == 1 && Wants(side, AddsFor(side, missing)[0], missing)
  {
    hide Message;
    hide Built;
    hide Entries;
    hide AddRequest;
    hide AllReadAs;
    hide IpsetWire.IsAdd;
    hide SetName.HeaderOf;
    hide SetName.AttrsOf;
    var header := side.set0.HeaderOf(side.v4, true, false, side.pid);
    AddRequestRead(side.front, header, side.set0.AttrsOf(true), side.set0.ListKind(), side.nft, side.v4, missing);
    IpsetWire.AddMessage(AddsFor(side, missing)[0], side.set0, side.v4, side.pid, missing);
  }

  /** One test request for each address. */
  ghost predicate AllAsked(side: Side, ips: seq<bytes>)
    requires Testable(side, ips)
  {
    && |TestsFor(side, ips)| == |ips|
    && forall j :: 0 <= j < |ips| ==> |ips[j]| == IpLen(side.v4) && Asks(side, TestsFor(side, ips)[j], ips[j])
  }

  /** One request for all missing addresses, or none. */
  ghost predicate AllWanted(side: Side, missing: seq<bytes>)
    requires Fits(side, missing)
  {
    if missing == [] then AddsFor(side, missing) == []
    else |AddsFor(side, missing)| == 1 && Wants(side, AddsFor(side, missing)[0], missing)
  }

  lemma {:induction false} AskedRead(side: Side, ips: seq<bytes>)
    requires Testable(side, ips)
    ensures AllAsked(side, ips)
  {
    hide Asks;
    hide TestsFor;
    hide TestRequests;
    hide Side.Made;
    hide IpLen;
    if ips == [] {
      NoTests(side);
    } else {
      TestsRead(side, ips, 0);
      forall j | 0 <= j < |ips| ensures |ips[j]| == IpLen(side.v4) && Asks(side, TestsFor(side, ips)[j], ips[j]) {
        TestsRead(side, ips, j);
      }
    }
  }

  /** These are, byte by byte, test requests for the addresses of one family. */
  ghost predicate AreTests(side: Side, ts: seq<bytes>, ips: seq<bytes>) {
    && Addrs(side.v4, ips) && |ts| == |ips|
    && forall j :: 0 <= j < |ips| ==> IpsetWire.IsTest(ts[j], side.set0, side.v4, side.pid, ips[j])
  }

  /** This is, byte by byte, one request to add all of these, if there are any. */
  ghost predicate AreAdds(side: Side, ms: seq<bytes>, ips: seq<bytes>) {
    && Addrs(side.v4, ips)
    && if ips == [] then ms == [] else |ms| == 1 && IpsetWire.IsAdd(ms[0], side.set0, side.v4, side.pid, ips)
  }

  lemma {:induction false} AreTestsFor(side: Side, ips: seq<bytes>)
    requires Testable(side, ips)
    ensures AreTests(side, TestsFor(side, ips), ips)
  {
    hide TestsFor;
    hide TestTail;
    hide ReadTest;
    hide Message;
    hide IpsetWire.IsTest;
    AskedRead(side, ips);
  }

  lemma {:induction false} AreAddsFor(side: Side, missing: seq<bytes>)
    requires Fits(side, missing) && (missing != [] ==> side.Made())
    ensures AreAdds(side, AddsFor(side, missing), missing)
  {
    hide Message;
    hide Entries;
    hide AllReadAs;
    hide AddRequest;
    hide IpsetWire.IsAdd;
    if missing != [] { AddsRead(side, missing); }
  }

  lemma {:induction false} PartsOf(side: Side, ips: seq<bytes>, missing: seq<bytes>)
    requires Testable(side, ips) && Fits(side, missing) && (ips == [] ==> missing == [])
    ensures AreTests(side, TestsFor(side, ips), ips) && AreAdds(side, AddsFor(side, missing), missing)
  {
    hide TestsFor;
    hide AddsFor;
    hide AreTests;
    hide AreAdds;
    hide Fits;
    hide Built;
    AreTestsFor(side, ips);
    AreAddsFor(side, missing);
  }

  lemma NoTests(side: Side)
    ensures TestsFor(side, []) == []
  {
  }

  /** Those addresses, in order, for which no answer came or it was that the kernel does not hold them. */
  ghost predicate Unanswered(r: seq<bytes>, ips: seq<bytes>, answers: seq<bool>, bit: nat) {
    exists idx ::
      && Picks(idx, r, ips)
      && forall i :: 0 <= i < |ips| ==> (i in idx <==> !(bit + i < |answers| && answers[bit + i]))
  }

  lemma {:induction false} MissingPicks(ips: seq<bytes>, known: seq<bool>, bit: nat) returns (idx: seq<nat>)
    requires bit + |ips| <= |known|
    ensures Picks(idx, Missing(ips, known, bit), ips)
    ensures Marks(idx, Unset(known, bit, |ips|))
  {
    hide Marks;
    hide Picks;
    NoPlaces(ips);
    if ips == [] {
      idx := [];
    } else {
      hide Missing;
      var n := |ips| - 1;
      var front := MissingPicks(ips[..n], known, bit);
      assert ips == ips[..n] + [ips[n]];
      MissingStep(ips[..n], ips[n], known, bit);
      assert Unset(known, bit, |ips|)[..n] == Unset(known, bit, n);
      PicksMore(front, Missing(ips[..n], known, bit), ips[..n], ips[n], !known[bit + n]);
      MarksMore(front, Unset(known, bit, |ips|));
      idx := if known[bit + n] then front else front + [n];
    }
  }

  /** Which of `n` bits, from `bit` on, are not set. */
  function Unset(known: seq<bool>, bit: nat, n: nat): (r: seq<bool>)
    requires bit + n <= |known|
    ensures |r| == n && forall i :: 0 <= i < n ==> (r[i] <==> !known[bit + i])
  {
    seq(n, i requires 0 <= i < n => !known[bit + i])
  }

  lemma NoPlaces(s: seq<bytes>)
    ensures Picks([], [], s) && Marks([], [])
  {
  }

  lemma {:induction false} MissingMeans(ips: seq<bytes>, answers: seq<bool>, n: nat, bit: nat)
    requires bit + |ips| <= n <= 2 * IP_N
    ensures Unanswered(Missing(ips, Known(answers, n), bit), ips, answers, bit)
  {
    hide Missing;
    hide Known;
    hide Picks;
    var idx := MissingPicks(ips, Known(answers, n), bit);
  }

  lemma SubsetMissing(ips: seq<bytes>, known: seq<bool>, bit: nat)
    requires bit + |ips| <= |known|
    ensures ips == [] ==> Missing(ips, known, bit) == []
  {
  }

  ghost predicate Says(side: Side, missing: seq<bytes>, msgs: seq<bytes>) {
    Fits(side, missing) && msgs == AddsFor(side, missing)
  }

  /** A message that begins or ends a transaction. */
  function BatchHeader(kind: u16, pid: u32): bytes {
    PutLe32(HEADER_LEN) + Header(kind, NLM_F_REQUEST, pid, 0, NFNL_SUBSYS_NFTABLES)
  }

  lemma BatchHeaders(pid: u32)
    ensures BatchHeader(NFNL_MSG_BATCH_BEGIN, pid) == IpsetWire.RawBatch(16, pid)
    ensures BatchHeader(NFNL_MSG_BATCH_END, pid) == IpsetWire.RawBatch(17, pid)
  {
    hide IpsetWire.RawBatch;
    hide Header;
    IpsetWire.BatchIs(16, pid);
    IpsetWire.BatchIs(17, pid);
  }

  /** What is sent for the requests of the two families. */
  function Out(nft: bool, pid: u32, msgs: seq<bytes>): seq<Traffic> {
    if msgs == [] then []
    else if nft then [Adds([BatchHeader(NFNL_MSG_BATCH_BEGIN, pid) + Concat(msgs)
        + BatchHeader(NFNL_MSG_BATCH_END, pid)])]
    else [Adds(msgs)]
  }

  // ---------------------------------------------------------------- batching

  /** One call of ipset_add_ip, with the replies that a flush in it would get. */
  datatype Offer = Offer(ip: bytes, v4: bool, answers: seq<bool>) {
    ghost predicate Ok() { |ip| == IpLen(v4) }
  }

  ghost predicate AllOk(offers: seq<Offer>) { forall i :: 0 <= i < |offers| ==> offers[i].Ok() }

  /** Which families have a set, and whether the blacklist is in force. */
  datatype Rules = Rules(named4: bool, named6: bool, blacklist: bool)

  ghost predicate Takes(r: Rules, o: Offer)
    requires o.Ok()
  {
    (if o.v4 then r.named4 else r.named6) && !(r.blacklist && InBlacklist(o.ip, o.v4))
  }

  /** The flushes so far and the batches since. */
  datatype Queue = Queue(flushed: seq<Batch>, v4: seq<bytes>, v6: seq<bytes>)

  /** A flush, unless both batches are empty. */
  ghost function Ended(q: Queue, answers: seq<bool>): Queue {
    if q.v4 == [] && q.v6 == [] then q else Queue(q.flushed + [Batch(q.v4, q.v6, answers)], [], [])
  }

  /** An address that is not turned away joins its family's batch, after a flush
      of both when its own is full. */
  ghost function Offered(r: Rules, q: Queue, o: Offer): Queue
    requires o.Ok()
  {
    if !Takes(r, o) then q
    else
      var p := if |if o.v4 then q.v4 else q.v6| >= IP_N then Ended(q, o.answers) else q;
      if o.v4 then p.(v4 := p.v4 + [o.ip]) else p.(v6 := p.v6 + [o.ip])
  }

  ghost function OfferedAll(r: Rules, q: Queue, offers: seq<Offer>): Queue
    requires AllOk(offers)
  {
    if offers == [] then q
    else Offered(r, OfferedAll(r, q, offers[..|offers| - 1]), offers[|offers| - 1])
  }

  /** The addresses of one family that are not turned away. */
  ghost function Taken(r: Rules, offers: seq<Offer>, v4: bool): seq<bytes>
    requires AllOk(offers)
  {
    if offers == [] then []
    else
      var o := offers[|offers| - 1];
      Taken(r, offers[..|offers| - 1], v4) + if o.v4 == v4 && Takes(r, o) then [o.ip] else []
  }

  /** The addresses of one family in all batches, flushed or not. */
  function Collected(q: Queue, v4: bool): seq<bytes> { Flat(q.flushed, v4) + if v4 then q.v4 else q.v6 }

  function Flat(bs: seq<Batch>, v4: bool): seq<bytes> {
    if bs == [] then []
    else
      var last := bs[|bs| - 1];
      Flat(bs[..|bs| - 1], v4) + if v4 then last.v4 else last.v6
  }

  /** What one call does, in numbers: an address whose family has no set, or which
      the blacklist holds (0/8, 127/8, :: and ::1), is passed over; a batch of ten
      is flushed, with the other family's, before an address joins it. */
  lemma OfferedWhen(r: Rules, q: Queue, o: Offer)
    requires o.Ok()
    ensures var own := if o.v4 then q.v4 else q.v6;
            var listed := if o.v4 then Value(o.ip) < 0x100_0000 || 0x7f00_0000 <= Value(o.ip) < 0x8000_0000
                          else Value(o.ip) <= 1;
            var p := Offered(r, q, o);
            if !(if o.v4 then r.named4 else r.named6) || (r.blacklist && listed) then p == q
            else if |own| >= 10 then
              p == Queue(q.flushed + [Batch(q.v4, q.v6, o.answers)], if o.v4 then [o.ip] else [],
                         if o.v4 then [] else [o.ip])
            else
              p == Queue(q.flushed, q.v4 + (if o.v4 then [o.ip] else []), q.v6 + (if o.v4 then [] else [o.ip]))
  {
    hide InBlacklist;
    hide Value;
    BlacklistValues(o.ip, o.v4);
  }

  /** A group of addresses, ended at last: each that is not turned away has been in
      exactly one flush, in the order of the calls, and no batch was over-full. */
  lemma GroupOnce(r: Rules, q: Queue, offers: seq<Offer>, answers: seq<bool>, v4: bool)
    requires AllOk(offers)
    ensures var e := Ended(OfferedAll(r, q, offers), answers);
            e.v4 == [] && e.v6 == [] && Flat(e.flushed, v4) == Collected(q, v4) + Taken(r, offers, v4)
    ensures Bounded(q) ==> Bounded(Ended(OfferedAll(r, q, offers), answers))
  {
    hide OfferedAll;
    hide Taken;
    hide Flat;
    AllCollected(r, q, offers, v4);
    EndedCollects(OfferedAll(r, q, offers), answers, v4);
    var e := Ended(OfferedAll(r, q, offers), answers);
    assert Flat(e.flushed, v4) + [] == Flat(e.flushed, v4);
  }

  ghost predicate Bounded(q: Queue) {
    && |q.v4| <= IP_N && |q.v6| <= IP_N
    && forall i :: 0 <= i < |q.flushed| ==> 0 < |q.flushed[i].v4| + |q.flushed[i].v6| && Small(q.flushed[i])
  }

  ghost predicate Small(b: Batch) { |b.v4| <= IP_N && |b.v6| <= IP_N }

  lemma {:induction false} AllCollected(r: Rules, q: Queue, offers: seq<Offer>, v4: bool)
    requires AllOk(offers)
    ensures Collected(OfferedAll(r, q, offers), v4) == Collected(q, v4) + Taken(r, offers, v4)
    ensures Bounded(q) ==> Bounded(OfferedAll(r, q, offers))
    decreases |offers|
  {
    hide Collected;
    hide Offered;
    hide Takes;
    hide Bounded;
    if offers == [] {
    } else {
      var n := |offers| - 1;
      AllCollected(r, q, offers[..n], v4);
      OfferedCollects(r, OfferedAll(r, q, offers[..n]), offers[n], v4);
    }
  }

  lemma OfferedCollects(r: Rules, q: Queue, o: Offer, v4: bool)
    requires o.Ok()
    ensures Collected(Offered(r, q, o), v4) == Collected(q, v4) + if o.v4 == v4 && Takes(r, o) then [o.ip] else []
    ensures Bounded(q) ==> Bounded(Offered(r, q, o))
  {
    hide Flat;
    hide Takes;
    hide Bounded;
    hide Ended;
    EndedCollects(q, o.answers, v4);
    if Bounded(q) { OfferedBounded(r, q, o); }
  }

  lemma OfferedBounded(r: Rules, q: Queue, o: Offer)
    requires o.Ok() && Bounded(q)
    ensures Bounded(Offered(r, q, o))
  {
    hide Takes;
    hide Ended;
    EndedCollects(q, o.answers, o.v4);
  }

  lemma EndedCollects(q: Queue, answers: seq<bool>, v4: bool)
    ensures Collected(Ended(q, answers), v4) == Collected(q, v4)
    ensures Ended(q, answers).v4 == [] && Ended(q, answers).v6 == []
    ensures Bounded(q) ==> Bounded(Ended(q, answers))
  {
    hide Flat;
    hide Bounded;
    FlatStep(q.flushed, Batch(q.v4, q.v6, answers));
    if Bounded(q) { EndedBounded(q, answers); }
  }

  lemma EndedBounded(q: Queue, answers: seq<bool>)
    requires Bounded(q)
    ensures Bounded(Ended(q, answers))
  {
  }

  lemma FlatStep(bs: seq<Batch>, b: Batch)
    ensures Flat(bs + [b], true) == Flat(bs, true) + b.v4 && Flat(bs + [b], false) == Flat(bs, false) + b.v6
  {
    assert (bs + [b])[..|bs|] == bs;
  }

  // ---------------------------------------------------------------- pieces of both families

  lemma BothInBounds(vs: seq<Iov>, ws: seq<Iov>)
    requires InBounds(vs) && InBounds(ws)
    ensures InBounds(vs + ws)
  {
  }

  /** The messages of two families, one behind the other. */
  lemma SentTogether(iov: seq<Iov>, vs: seq<Vec>, ws: seq<Vec>, ms: seq<bytes>, ns: seq<bytes>)
    requires SentAre(iov, vs, ms) && SentAre(iov, ws, ns)
    ensures SentAre(iov, vs + ws, ms + ns)
  {
    hide Reads;
  }

  lemma ReadsSlice(vs: seq<Iov>, before: seq<Iov>, after: seq<Iov>)
    requires InBounds(vs) && InBounds(before) && InBounds(after)
    ensures Reads(before + vs + after, Vec(|before|, |vs|), Gather(vs))
  {
    var iov := before + vs + after;
    assert iov[|before|..|before| + |vs|] == vs;
    BothInBounds(before, vs);
    BothInBounds(before + vs, after);
    SliceBases(iov, Vec(|before|, |vs|));
  }

  /** ipset: one message a family. */
  lemma {:induction false} IpsetSent(vs: seq<Iov>, ws: seq<Iov>)
    requires InBounds(vs) && InBounds(ws)
    ensures InBounds(vs + ws)
    ensures SentAre(vs + ws, VecFor(0, vs) + VecFor(|vs|, ws), MsgFor(vs) + MsgFor(ws))
    ensures |VecFor(0, vs) + VecFor(|vs|, ws)| == |MsgFor(vs) + MsgFor(ws)|
  {
    hide Reads;
    BothInBounds(vs, ws);
    ReadsSlice(vs, [], ws);
    ReadsSlice(ws, vs, []);
    assert [] + vs + ws == vs + ws && vs + ws + [] == vs + ws;
    assert SentAre(vs + ws, VecFor(0, vs), MsgFor(vs));
    assert SentAre(vs + ws, VecFor(|vs|, ws), MsgFor(ws));
    SentTogether(vs + ws, VecFor(0, vs), VecFor(|vs|, ws), MsgFor(vs), MsgFor(ws));
  }

  function VecFor(start: nat, vs: seq<Iov>): seq<Vec> { if vs == [] then [] else [Vec(start, |vs|)] }

  ghost function MsgFor(vs: seq<Iov>): seq<bytes>
    requires InBounds(vs)
    reads Bases(vs)
  {
    if vs == [] then [] else [Gather(vs)]
  }

  /** A whole array as one piece. */
  function Whole(a: array<byte>): Iov { Iov(a, 0, a.Length) }

  lemma GatherWhole(a: array<byte>)
    ensures InBounds([Whole(a)]) && Gather([Whole(a)]) == a[..]
  {
    assert [Whole(a)][..0] == [] && a[0..a.Length] == a[..];
    assert Gather([Whole(a)]) == Gather([]) + a[..];
  }

  lemma GatherFour(first: array<byte>, vs: seq<Iov>, ws: seq<Iov>, last: array<byte>)
    requires InBounds(vs) && InBounds(ws)
    ensures InBounds([Whole(first)] + vs + ws + [Whole(last)])
    ensures Gather([Whole(first)] + vs + ws + [Whole(last)]) == first[..] + (Gather(vs) + Gather(ws)) + last[..]
  {
    hide Gather;
    hide InBounds;
    GatherWhole(first);
    GatherWhole(last);
    GatherAppend([Whole(first)], vs);
    GatherAppend([Whole(first)] + vs, ws);
    GatherAppend([Whole(first)] + vs + ws, [Whole(last)]);
    Assoc(first[..], Gather(vs), Gather(ws));
  }

  /** nftables: everything is one message, between the two batch headers. */
  lemma NftSent(first: array<byte>, vs: seq<Iov>, ws: seq<Iov>, last: array<byte>)
    requires InBounds(vs) && InBounds(ws)
    ensures InBounds([Whole(first)] + vs + ws + [Whole(last)])
    ensures SentAre([Whole(first)] + vs + ws + [Whole(last)], [Vec(0, 2 + |vs| + |ws|)],
                    [first[..] + Concat(MsgFor(vs) + MsgFor(ws)) + last[..]])
  {
    hide Reads;
    hide Gather;
    hide InBounds;
    var all := [Whole(first)] + vs + ws + [Whole(last)];
    GatherFour(first, vs, ws, last);
    NoneInBounds();
    ReadsSlice(all, [], []);
    assert [] + all + [] == all;
    ConcatAppend(MsgFor(vs), MsgFor(ws));
    ConcatMsg(vs);
    ConcatMsg(ws);
  }

  lemma NoneInBounds()
    ensures InBounds([])
  {
  }

  lemma ConcatMsg(vs: seq<Iov>)
    requires InBounds(vs)
    ensures Concat(MsgFor(vs)) == Gather(vs)
  {
    if vs != [] {
      assert [Gather(vs)][..0] == [];
      assert Concat([Gather(vs)]) == Concat([]) + Gather(vs);
    }
  }

  // ---------------------------------------------------------------- the context

  class AddCtx {
    const nft: bool
    const blacklist: bool // ipset_blacklist
    const pid: u32
    const side4: Side
    const side6: Side
    const iov: array<Iov> // s_iov
    const msgv: array<Vec> // s_msgv
    const batchBegin: array<byte>
    const batchEnd: array<byte>

    ghost var flushed: seq<Batch>
    ghost var log: seq<Traffic> // what the kernel has been handed

    /** No two buffers overlap. */
    ghost predicate Apart() {
      && side4 != side6 && iov.Length == IOV_N && msgv.Length == MSG_N
      && side4.msg.buf != side6.msg.buf && side4.msg.buf != side6.test.buf && side4.test.buf != side6.msg.buf
      && batchBegin !in {side4.msg.buf, side6.msg.buf} && batchEnd !in {side4.msg.buf, side6.msg.buf}
      && side4.v4 && !side6.v4 && side4.nft == nft && side6.nft == nft
    }

    ghost predicate Valid()
      reads this, side4, side6, side4.msg.buf, side4.test.buf, side6.msg.buf, side6.test.buf, batchBegin, batchEnd
    {
      Ready() && Logged()
    }

    /** What also holds in the middle of a flush. */
    ghost predicate Ready()
      reads side4, side6, side4.msg.buf, side4.test.buf, side6.msg.buf, side6.test.buf, batchBegin, batchEnd
    {
      Apart() && side4.Valid() && side6.Valid() && Headers()
    }

    /** What the kernel has been handed is what the flushes call for. */
    ghost predicate Logged()
      reads `flushed, `log
    {
      AllSendable(flushed) && log == SentAll(flushed)
    }

    ghost predicate AllSendable(bs: seq<Batch>) { forall i :: 0 <= i < |bs| ==> Sendable(bs[i]) }

    ghost predicate Sendable(b: Batch) {
      && |b.v4| + |b.v6| <= 2 * IP_N && Testable(side4, b.v4) && Testable(side6, b.v6)
      && Fits(side4, Missing4(b)) && Fits(side6, Missing6(b))
    }

    /** The addresses of a flush that the kernel is not known to have. */
    ghost function Missing4(b: Batch): seq<bytes>
      requires |b.v4| + |b.v6| <= 2 * IP_N
    {
      Missing(b.v4, Known(b.answers, |b.v4| + |b.v6|), 0)
    }

    ghost function Missing6(b: Batch): seq<bytes>
      requires |b.v4| + |b.v6| <= 2 * IP_N
    {
      Missing(b.v6, Known(b.answers, |b.v4| + |b.v6|), |b.v4|)
    }

    /** What one flush hands to the kernel: a test request for each address, IPv4
        before IPv6, and then the add requests for exactly the missing ones. */
    ghost function Sent(b: Batch): seq<Traffic>
      requires Sendable(b)
    {
      [Tests(TestsFor(side4, b.v4) + TestsFor(side6, b.v6))]
      + Out(nft, pid, AddsFor(side4, Missing4(b)) + AddsFor(side6, Missing6(b)))
    }

    lemma SentIs(b: Batch, known: seq<bool>)
      requires |b.v4| + |b.v6| <= 2 * IP_N && known == Known(b.answers, |b.v4| + |b.v6|)
      requires Testable(side4, b.v4) && Testable(side6, b.v6)
      requires Fits(side4, Missing(b.v4, known, 0)) && Fits(side6, Missing(b.v6, known, |b.v4|))
      ensures Sendable(b)
      ensures Sent(b) == [Tests(TestsFor(side4, b.v4) + TestsFor(side6, b.v6))]
                         + Out(nft, pid, AddsFor(side4, Missing(b.v4, known, 0))
                             + AddsFor(side6, Missing(b.v6, known, |b.v4|)))
    {
      hide Known;
      hide Missing;
      hide Fits;
      hide Testable;
      hide TestsFor;
      hide AddsFor;
      hide Out;
    }

    ghost function SentAll(bs: seq<Batch>): seq<Traffic>
      requires AllSendable(bs)
    {
      if bs == [] then [] else SentAll(bs[..|bs| - 1]) + Sent(bs[|bs| - 1])
    }

    /** What the kernel reads in the messages of one flush: a test of each address,
        and one request a family for the addresses that it is not known to have. */
    lemma {:induction false} SentRead(b: Batch)
      requires Sendable(b)
      ensures AllAsked(side4, b.v4) && AllAsked(side6, b.v6)
      ensures AllWanted(side4, Missing4(b)) && AllWanted(side6, Missing6(b))
    {
      hide Missing;
      hide Known;
      hide Entries;
      hide AddRequest;
      AskedRead(side4, b.v4);
      AskedRead(side6, b.v6);
      SubsetMissing(b.v4, Known(b.answers, |b.v4| + |b.v6|), 0);
      SubsetMissing(b.v6, Known(b.answers, |b.v4| + |b.v6|), |b.v4|);
      if Missing4(b) != [] { AddsRead(side4, Missing4(b)); }
      if Missing6(b) != [] { AddsRead(side6, Missing6(b)); }
    }

    /** What one flush hands to the kernel, byte by byte: first a test of each
        address, IPv4 before IPv6; then, if any address is left unanswered, a request
        a family to add those, which for nftables stand in one transaction. */
    ghost predicate Flushed(b: Batch, add4: seq<bytes>, add6: seq<bytes>, out: seq<Traffic>) {
      && Unanswered(add4, b.v4, b.answers, 0) && Unanswered(add6, b.v6, b.answers, |b.v4|)
      && exists t4, t6, m4, m6 ::
           && AreTests(side4, t4, b.v4) && AreTests(side6, t6, b.v6) && AreAdds(side4, m4, add4)
           && AreAdds(side6, m6, add6)
           && out == [Tests(t4 + t6)] + if m4 + m6 == [] then [] else [Adds(if !nft then m4 + m6
                 else [IpsetWire.RawBatch(16, pid) + Concat(m4 + m6) + IpsetWire.RawBatch(17, pid)])]
    }

    lemma {:induction false} SentMeans(b: Batch)
      requires Sendable(b)
      ensures Flushed(b, Missing4(b), Missing6(b), Sent(b))
    {
      hide Missing4;
      hide Missing6;
      hide Unanswered;
      hide TestsFor;
      hide AddsFor;
      hide Concat;
      hide IpsetWire.RawBatch;
      hide BatchHeader;
      hide AreTests;
      hide AreAdds;
      hide Testable;
      hide Fits;
      SentParts(b);
      BatchHeaders(pid);
    }

    ghost predicate AllFlushed(bs: seq<Batch>)
      requires AllSendable(bs)
    {
      forall i :: 0 <= i < |bs| ==>
        assert Sendable(bs[i]); Flushed(bs[i], Missing4(bs[i]), Missing6(bs[i]), Sent(bs[i]))
    }

    lemma {:induction false} AllSentMeans(bs: seq<Batch>)
      requires AllSendable(bs)
      ensures AllFlushed(bs)
    {
      hide Flushed;
      hide Missing4;
      hide Missing6;
      hide Sent;
      forall i | 0 <= i < |bs|
        ensures Sendable(bs[i]) && Flushed(bs[i], Missing4(bs[i]), Missing6(bs[i]), Sent(bs[i]))
      {
        SentMeans(bs[i]);
      }
    }

    lemma {:induction false} SentParts(b: Batch)
      requires Sendable(b)
      ensures AreTests(side4, TestsFor(side4, b.v4), b.v4) && AreTests(side6, TestsFor(side6, b.v6), b.v6)
      ensures AreAdds(side4, AddsFor(side4, Missing4(b)), Missing4(b))
      ensures AreAdds(side6, AddsFor(side6, Missing6(b)), Missing6(b))
      ensures Unanswered(Missing4(b), b.v4, b.answers, 0) && Unanswered(Missing6(b), b.v6, b.answers, |b.v4|)
    {
      hide Missing;
      hide Known;
      hide Unanswered;
      hide TestsFor;
      hide AddsFor;
      hide AreTests;
      hide AreAdds;
      hide Testable;
      hide Fits;
      var n := |b.v4| + |b.v6|;
      SubsetMissing(b.v4, Known(b.answers, n), 0);
      SubsetMissing(b.v6, Known(b.answers, n), |b.v4|);
      PartsOf(side4, b.v4, Missing4(b));
      PartsOf(side6, b.v6, Missing6(b));
      MissingMeans(b.v4, b.answers, n, 0);
      MissingMeans(b.v6, b.answers, n, |b.v4|);
    }

    lemma {:induction false} SentStep(bs: seq<Batch>, b: Batch)
      requires AllSendable(bs) && Sendable(b)
      ensures AllSendable(bs + [b]) && SentAll(bs + [b]) == SentAll(bs) + Sent(b)
    {
      hide Sendable;
      assert (bs + [b])[..|bs|] == bs;
    }

    /** The flushes so far and the batches since. */
    ghost function Waiting(): Queue
      reads `flushed, side4`ips, side6`ips
    {
      Queue(flushed, side4.ips, side6.ips)
    }

    ghost function TheRules(): Rules { Rules(side4.named, side6.named, blacklist) }

    ghost predicate Headers()
      reads batchBegin, batchEnd
    {
      batchBegin[..] == BatchHeader(NFNL_MSG_BATCH_BEGIN, pid) && batchEnd[..] == BatchHeader(NFNL_MSG_BATCH_END, pid)
    }

    /** ipset_new_addctx; malformed set names end the program before. */
    constructor (nft: bool, name4: Option<SetName>, name6: Option<SetName>, blacklist: bool, pid: u32,
                 contents: nat -> byte)
      requires name4.Some? ==> name4.value.Ok() && name4.value.Nft? == nft
      requires name6.Some? ==> name6.value.Ok() && name6.value.Nft? == nft
      ensures Valid() && side4.named == name4.Some? && side6.named == name6.Some? && this.nft == nft
      ensures this.blacklist == blacklist && this.pid == pid == side4.pid == side6.pid
      ensures (name4.Some? ==> side4.set0 == name4.value) && (name6.Some? ==> side6.set0 == name6.value)
      ensures Waiting() == Queue([], [], []) && log == []
    {
      hide Side.Valid;
      hide BatchHeader;
      hide Sendable;
      hide Sent;
      this.nft, this.blacklist, this.pid := nft, blacklist, pid;
      var s4 := new Side(nft, true, name4, pid, contents);
      var s6 := new Side(nft, false, name6, pid, contents);
      side4, side6 := s4, s6;
      var b := s4.msg.buf;
      iov := new Iov[IOV_N](_ => Iov(b, 0, 0));
      msgv := new Vec[MSG_N](_ => Vec(0, 0));
      var first := MakeHeader(NFNL_MSG_BATCH_BEGIN, pid);
      var last := MakeHeader(NFNL_MSG_BATCH_END, pid);
      batchBegin, batchEnd := first, last;
      flushed, log := [], [];
    }

    static method MakeHeader(kind: u16, pid: u32) returns (a: array<byte>)
      ensures fresh(a) && a[..] == BatchHeader(kind, pid)
    {
      var s := BatchHeader(kind, pid);
      a := new byte[|s|](i requires 0 <= i < |s| => s[i]);
    }

    /** sendmmsg: the kernel gets these messages. */
    method SendReq(n: nat, ghost used: nat, ghost what: Traffic)
      requires 0 < n <= MSG_N && n <= msgv.Length && used <= iov.Length && SentAre(iov[..used], msgv[..n], what.msgs)
      modifies `log
      ensures log == old(log) + [what]
    {
      log := log + [what];
    }

    // ------------------------------------------------------------ testing

    ghost function Requests(): seq<bytes>
      requires side4.Valid() && side6.Valid()
      reads side4, side6, side4.msg.buf, side4.test.buf, side6.msg.buf, side6.test.buf
    {
      side4.Requests() + side6.Requests()
    }

    /** test_ips: `answers` are the replies that arrive, in order; fewer than the
        requests, or none, when sending or receiving fails. */
    method TestIps(answers: seq<bool>) returns (known: seq<bool>)
      requires Ready() && side4.ipcnt + side6.ipcnt > 0
      modifies iov, msgv, `log
      ensures Ready() && known == Known(answers, side4.ipcnt + side6.ipcnt)
      ensures log == old(log) + [Tests(old(Requests()))]
    {
      hide Side.Valid;
      hide SentAre;
      hide Requests;
      hide Side.Pieces;
      hide TestVecs;
      hide Headers;
      hide Logged;
      hide Known;
      hide InBounds;
      side4.Count();
      side6.Count();
      var n := FillAllTests();
      TestsReady();
      SendReq(n, 2 * n, Tests(Requests()));
      known := RecvRes(answers, n);
    }

    method FillAllTests() returns (n: nat)
      requires Ready()
      modifies iov, msgv
      ensures n == side4.ipcnt + side6.ipcnt <= MSG_N && iov[..2 * n] == old(side4.Pieces() + side6.Pieces())
      ensures msgv[..n] == TestVecs(0, side4.ipcnt) + TestVecs(side4.ipcnt, side6.ipcnt)
    {
      hide Headers;
      hide Logged;
      hide Side.Valid;
      hide TestVecs;
      hide Side.Pieces;
      side4.Count();
      side6.Count();
      side4.FillTests(iov, msgv, 0);
      n := side4.ipcnt;
      ghost var vs, ws := iov[..2 * n], msgv[..n];
      assert vs == iov[2 * 0..2 * (0 + n)] && ws == msgv[0..0 + n];
      side6.FillTests(iov, msgv, n);
      n := n + side6.ipcnt;
      assert iov[..2 * n] == vs + iov[2 * side4.ipcnt..2 * n];
      assert msgv[..n] == ws + msgv[side4.ipcnt..n];
    }

    lemma TestsReady()
      requires side4.Valid() && side6.Valid()
      ensures InBounds(side4.Pieces() + side6.Pieces())
      ensures SentAre(side4.Pieces() + side6.Pieces(), TestVecs(0, side4.ipcnt) + TestVecs(side4.ipcnt, side6.ipcnt),
              Requests())
    {
      hide Side.Valid;
      hide Side.Pieces;
      hide Side.Requests;
      hide SentAre;
      hide InBounds;
      side4.PiecesOk();
      side6.PiecesOk();
      var iov := side4.Pieces() + side6.Pieces();
      BothInBounds(side4.Pieces(), side6.Pieces());
      side4.PiecesSay(iov, 0);
      side6.PiecesSay(iov, side4.ipcnt);
      SentTogether(iov, TestVecs(0, side4.ipcnt), TestVecs(side4.ipcnt, side6.ipcnt), side4.Requests(),
          side6.Requests());
    }

    /** recvmmsg, and the results saved as bits. */
    static method RecvRes(answers: seq<bool>, n: nat) returns (known: seq<bool>)
      requires n <= 2 * IP_N
      ensures known == Known(answers, n)
    {
      known := seq(2 * IP_N, _ => false);
      for i := 0 to if |answers| < n then |answers| else n
        invariant |known| == 2 * IP_N && forall j :: 0 <= j < 2 * IP_N ==> (known[j] <==> j < i && answers[j])
      {
        if answers[i] { known := known[i := true]; } // bitvec_set1
      }
    }

    // ------------------------------------------------------------ flushing

    /** The loop over the two families in end_add_ip_*, from piece `at` on. */
    method FillBoth(at: nat, known: seq<bool>) returns (c4: nat, c6: nat, ghost vs: seq<Iov>, ghost ws: seq<Iov>)
      requires Ready() && at <= 1 && |known| == 2 * IP_N
      modifies iov, side4.msg.buf, side4`nest, side6.msg.buf, side6`nest
      ensures side4.Base() && side6.Base() && |side4.ips| + |side6.ips| <= |known|
      ensures |vs| == c4 && |ws| == c6 && at + c4 + c6 < iov.Length && iov[..at + c4 + c6] == old(iov[..at]) + vs + ws
      ensures InBounds(vs) && InBounds(ws) && Bases(vs) <= {side4.msg.buf} && Bases(ws) <= {side6.msg.buf}
      ensures Says(side4, Missing(side4.ips, known, 0), MsgFor(vs))
      ensures Says(side6, Missing(side6.ips, known, |side4.ips|), MsgFor(ws))
    {
      hide Side.Valid;
      hide Side.Base;
      hide Says;
      hide MsgFor;
      hide Missing;
      hide InBounds;
      hide Headers;
      side4.Count();
      side6.Count();
      c4, vs := FillOne(side4, iov, at, known, 0);
      ghost var m := MsgFor(vs);
      c6, ws := FillOne(side6, iov, at + c4, known, side4.ipcnt);
      assert MsgFor(vs) == m;
    }

    /** end_add_ip_ipset: one message for each family that has missing addresses. */
    method EndAddIpset(known: seq<bool>) returns (n: nat, ghost used: nat, ghost m4: seq<bytes>, ghost m6: seq<bytes>)
      requires Ready() && |known| == 2 * IP_N
      modifies iov, msgv, side4.msg.buf, side4`nest, side6.msg.buf, side6`nest
      ensures side4.Base() && side6.Base() && |side4.ips| + |side6.ips| <= |known|
      ensures Says(side4, Missing(side4.ips, known, 0), m4) && Says(side6, Missing(side6.ips, known, |side4.ips|), m6)
      ensures n == |m4 + m6| <= msgv.Length && used <= iov.Length && SentAre(iov[..used], msgv[..n], m4 + m6)
    {
      hide Side.Valid;
      hide Side.Base;
      hide Says;
      hide SentAre;
      hide Missing;
      hide InBounds;
      hide Headers;
      hide Gather;
      hide MsgFor;
      hide Bases;
      var c4, c6;
      ghost var vs, ws;
      c4, c6, vs, ws := FillBoth(0, known);
      m4, m6 := MsgFor(vs), MsgFor(ws);
      n := SetVecs(c4, c6, vs, ws);
      used := c4 + c6;
      assert m4 == MsgFor(vs) && m6 == MsgFor(ws);
      IpsetSent(vs, ws);
      assert iov[..0] + vs + ws == vs + ws;
    }

    method SetVecs(c4: nat, c6: nat, ghost vs: seq<Iov>, ghost ws: seq<Iov>) returns (n: nat)
      requires msgv.Length == MSG_N && c4 == |vs| && c6 == |ws|
      modifies msgv
      ensures n <= msgv.Length && msgv[..n] == VecFor(0, vs) + VecFor(|vs|, ws)
    {
      n := 0;
      if c4 > 0 {
        msgv[n] := Vec(0, c4);
        n := n + 1;
      }
      if c6 > 0 {
        msgv[n] := Vec(c4, c6);
        n := n + 1;
      }
      assert msgv[..n] == VecFor(0, vs) + VecFor(|vs|, ws);
    }

    /** end_add_ip_nftset: one transaction with the messages of both families. */
    method EndAddNftset(known: seq<bool>) returns (n: nat, ghost used: nat, ghost m4: seq<bytes>, ghost m6: seq<bytes>)
      requires Ready() && |known| == 2 * IP_N
      modifies iov, msgv, side4.msg.buf, side4`nest, side6.msg.buf, side6`nest
      ensures side4.Base() && side6.Base() && |side4.ips| + |side6.ips| <= |known|
      ensures Says(side4, Missing(side4.ips, known, 0), m4) && Says(side6, Missing(side6.ips, known, |side4.ips|), m6)
      ensures n == (if m4 + m6 == [] then 0 else 1) && used <= iov.Length
      ensures n > 0 ==> SentAre(iov[..used], msgv[..1], [batchBegin[..] + Concat(m4 + m6) + batchEnd[..]])
    {
      hide Side.Valid;
      hide Side.Base;
      hide Says;
      hide SentAre;
      hide Missing;
      hide InBounds;
      hide Headers;
      hide Logged;
      hide Concat;
      hide Gather;
      iov[0] := Iov(batchBegin, 0, batchBegin.Length);
      var c4, c6;
      ghost var vs, ws;
      assert iov[..1] == [Whole(batchBegin)];
      c4, c6, vs, ws := FillBoth(1, known);
      m4, m6 := MsgFor(vs), MsgFor(ws);
      n, used := 0, 1 + c4 + c6;
      if 1 + c4 + c6 > 1 {
        iov[1 + c4 + c6] := Iov(batchEnd, 0, batchEnd.Length);
        msgv[0] := Vec(0, 2 + c4 + c6);
        n, used := 1, 2 + c4 + c6;
        assert m4 == MsgFor(vs) && m6 == MsgFor(ws);
        NftSent(batchBegin, vs, ws, batchEnd);
        assert iov[..used] == [Whole(batchBegin)] + vs + ws + [Whole(batchEnd)];
        assert msgv[..1] == [Vec(0, 2 + |vs| + |ws|)];
      }
    }

    /** ipset_end_add_ip: the addresses of both batches are tested, and requests
        for those that the kernel does not know are sent. */
    method EndAddIp(answers: seq<bool>)
      requires Valid()
      modifies iov, msgv, `log, `flushed, side4.msg.buf, side4`nest, side4`ipcnt, side4`ips
      modifies side6.msg.buf, side6`nest, side6`ipcnt, side6`ips
      ensures Valid() && Waiting() == Ended(old(Waiting()), answers)
      ensures old(side4.ips) == [] && old(side6.ips) == [] ==> log == old(log)
      ensures var b := Batch(old(side4.ips), old(side6.ips), answers);
              b.v4 != [] || b.v6 != [] ==>
                Sendable(b) && log == old(log) + Sent(b) && Flushed(b, Missing4(b), Missing6(b), Sent(b))
    {
      hide Side.Valid;
      hide Headers;
      hide AllSendable;
      hide SentAll;
      hide Apart;
      hide Sendable;
      hide Sent;
      side4.Count();
      side6.Count();
      hide Flushed;
      if side4.ipcnt + side6.ipcnt > 0 {
        ghost var b := Batch(side4.ips, side6.ips, answers);
        FlushAndReset(answers);
        SentMeans(b);
      }
    }

    method FlushAndReset(answers: seq<bool>)
      requires Valid() && side4.ipcnt + side6.ipcnt > 0
      modifies iov, msgv, `log, `flushed, side4.msg.buf, side4`nest, side4`ipcnt, side4`ips
      modifies side6.msg.buf, side6`nest, side6`ipcnt, side6`ips
      ensures Valid() && Waiting() == Queue(old(flushed) + [Batch(old(side4.ips), old(side6.ips), answers)], [], [])
      ensures var b := Batch(old(side4.ips), old(side6.ips), answers); Sendable(b) && log == old(log) + Sent(b)
    {
      hide Side.Valid;
      hide Side.Base;
      hide Headers;
      hide AllSendable;
      hide SentAll;
      hide Apart;
      hide Sendable;
      hide Sent;
      ghost var b := Batch(side4.ips, side6.ips, answers);
      ghost var log0 := log;
      Flush(answers);
      CloseBatch(b, log0);
    }

    method Flush(answers: seq<bool>)
      requires Ready() && side4.ipcnt + side6.ipcnt > 0
      modifies iov, msgv, `log, side4.msg.buf, side4`nest, side6.msg.buf, side6`nest
      ensures Apart() && side4.Base() && side6.Base() && Headers()
      ensures side4.ips == old(side4.ips) && side6.ips == old(side6.ips)
      ensures var b := Batch(side4.ips, side6.ips, answers); Sendable(b) && log == old(log) + Sent(b)
    {
      hide Side.Valid;
      hide Side.Base;
      hide Logged;
      hide Headers;
      hide Sendable;
      hide Sent;
      hide Requests;
      hide Apart;
      hide Fits;
      hide Missing;
      hide Known;
      hide TestsFor;
      hide AddsFor;
      hide Testable;
      hide Out;
      side4.Count();
      side6.Count();
      RequestsAre();
      var known := TestIps(answers);
      SendAdds(known);
      SentIs(Batch(side4.ips, side6.ips, answers), known);
    }

    /** The counters are reset. */
    method CloseBatch(ghost b: Batch, ghost log0: seq<Traffic>)
      requires Apart() && side4.Base() && side6.Base() && Headers() && b.v4 == side4.ips && b.v6 == side6.ips
      requires AllSendable(flushed) && log0 == SentAll(flushed) && Sendable(b) && log == log0 + Sent(b)
      modifies `flushed, side4`ipcnt, side4`ips, side6`ipcnt, side6`ips
      ensures Valid() && Waiting() == Queue(old(flushed) + [b], [], [])
    {
      hide Side.Valid;
      hide Side.Base;
      hide Headers;
      hide Sendable;
      hide Sent;
      hide AllSendable;
      hide SentAll;
      SentStep(flushed, b);
      flushed := flushed + [b];
      side4.Clear();
      side6.Clear();
    }

    /** The test requests of both batches are the plain ones. */
    lemma RequestsAre()
      requires side4.Valid() && side6.Valid()
      ensures Testable(side4, side4.ips) && Testable(side6, side6.ips)
      ensures Requests() == TestsFor(side4, side4.ips) + TestsFor(side6, side6.ips)
    {
      hide TestRequests;
      hide Entries;
      SideRequests(side4);
      SideRequests(side6);
    }

    /** The add requests are built and sent. */
    method SendAdds(known: seq<bool>)
      requires Ready() && |known| == 2 * IP_N
      modifies iov, msgv, `log, side4.msg.buf, side4`nest, side6.msg.buf, side6`nest
      ensures Apart() && Headers() && side4.Base() && side6.Base() && |side4.ips| + |side6.ips| <= |known|
      ensures side4.ips == old(side4.ips) && side6.ips == old(side6.ips)
      ensures var v4, v6 := Missing(side4.ips, known, 0), Missing(side6.ips, known, |side4.ips|);
              && Fits(side4, v4) && Fits(side6, v6)
              && log == old(log) + Out(nft, pid, AddsFor(side4, v4) + AddsFor(side6, v6))
    {
      hide Side.Valid;
      hide Side.Base;
      hide Fits;
      hide AddsFor;
      hide Logged;
      hide Missing;
      hide SentAre;
      var n: nat;
      ghost var used, m4, m6;
      if nft {
        n, used, m4, m6 := EndAddNftset(known);
        if n > 0 {
          SendReq(1, used, Adds([batchBegin[..] + Concat(m4 + m6) + batchEnd[..]]));
        }
      } else {
        n, used, m4, m6 := EndAddIpset(known);
        if n > 0 { SendReq(n, used, Adds(m4 + m6)); }
      }
    }

    // ------------------------------------------------------------ one address

    /** ipset_add_ip: an address is ignored if its family has no set or the
        blacklist holds it; otherwise it joins the batch, and both batches are
        flushed first when its own is full. */
    method AddIp(o: Offer)
      requires Valid() && o.Ok()
      modifies iov, msgv, `log, `flushed, side4.msg.buf, side4`nest, side4`ipcnt, side4`ips
      modifies side6.msg.buf, side6`nest, side6`ipcnt, side6`ips
      ensures Valid() && Waiting() == Offered(TheRules(), old(Waiting()), o)
    {
      hide Side.Valid;
      hide Headers;
      hide Logged;
      hide Apart;
      hide Sendable;
      hide Sent;
      hide Flushed;
      hide Missing4;
      hide Missing6;
      hide InBlacklist;
      if !(if o.v4 then side4.named else side6.named) { return; }
      if blacklist && InBlacklist(o.ip, o.v4) { return; }
      side4.Count();
      side6.Count();
      if (if o.v4 then side4.ipcnt else side6.ipcnt) >= IP_N {
        EndAddIp(o.answers);
        side4.Count();
        side6.Count();
      }
      Join(o.ip, o.v4);
    }

    method Join(ip: bytes, v4: bool)
      requires Valid() && |ip| == IpLen(v4)
      requires if v4 then side4.named && side4.ipcnt < IP_N else side6.named && side6.ipcnt < IP_N
      modifies side4.msg.buf, side4`ipcnt, side4`ips, side6.msg.buf, side6`ipcnt, side6`ips
      ensures Valid() && side4.ips == old(side4.ips) + (if v4 then [ip] else [])
      ensures side6.ips == old(side6.ips) + (if v4 then [] else [ip])
    {
      hide Side.Valid;
      hide Logged;
      if v4 { side4.Add(ip); } else { side6.Add(ip); }
    }

    /** A group of addresses, ended at last. Each that is not turned away has then
        been in exactly one flush, and by `Valid` the kernel has been handed, flush
        by flush, its test request and, if its bit was not set, a request to add it. */
    method AddGroup(offers: seq<Offer>, answers: seq<bool>)
      requires Valid() && AllOk(offers)
      modifies iov, msgv, `log, `flushed, side4.msg.buf, side4`nest, side4`ipcnt, side4`ips
      modifies side6.msg.buf, side6`nest, side6`ipcnt, side6`ips
      ensures Valid() && AllSendable(flushed) && log == SentAll(flushed)
      ensures Waiting() == Ended(OfferedAll(TheRules(), old(Waiting()), offers), answers)
      ensures side4.ips == [] && side6.ips == []
      ensures Flat(flushed, true) == Collected(old(Waiting()), true) + Taken(TheRules(), offers, true)
      ensures Flat(flushed, false) == Collected(old(Waiting()), false) + Taken(TheRules(), offers, false)
      ensures AllFlushed(flushed)
    {
      hide AllFlushed;
      hide Side.Valid;
      hide Headers;
      hide Apart;
      hide Sendable;
      hide Sent;
      hide Offered;
      for i := 0 to |offers|
        invariant Valid() && Waiting() == OfferedAll(TheRules(), old(Waiting()), offers[..i])
      {
        assert offers[..i + 1][..i] == offers[..i];
        AddIp(offers[i]);
      }
      assert offers[..|offers|] == offers;
      EndAddIp(answers);
      GroupOnce(TheRules(), old(Waiting()), offers, answers, true);
      GroupOnce(TheRules(), old(Waiting()), offers, answers, false);
      AllSentMeans(flushed);
    }
  }

  lemma SideRequests(side: Side)
    requires side.Valid()
    ensures Testable(side, side.ips) && side.Requests() == TestsFor(side, side.ips)
  {
    hide Entries;
    hide TestRequests;
    if side.ips != [] { side.TestTemplate(); }
  }

  /** One family's pieces, if it has anything to send. */
  method FillOne(side: Side, iov: array<Iov>, at: nat, known: seq<bool>, bit: nat) returns (c: nat, ghost vs: seq<Iov>)
    requires side.Valid() && at + 1 + side.ipcnt <= iov.Length && bit + side.ipcnt <= |known|
    modifies iov, side.msg.buf, side`nest
    ensures side.Base() && side.ipcnt == |side.ips| && at + c <= iov.Length && c <= 1 + side.ipcnt
    ensures iov[..at + c] == old(iov[..at]) + vs && |vs| == c && InBounds(vs) && Bases(vs) <= {side.msg.buf}
    ensures Says(side, Missing(side.ips, known, bit), MsgFor(vs))
  {
    hide Side.Valid;
    hide Side.Base;
    hide Side.Carries;
    hide Missing;
    hide Says;
    side.Count();
    c := side.FillAny(iov, at, known, bit);
    vs := iov[at..at + c];
    assert iov[..at + c] == iov[..at] + vs;
    CarriesSays(side, vs, Missing(side.ips, known, bit));
  }

  lemma CarriesSays(side: Side, vs: seq<Iov>, missing: seq<bytes>)
    requires vs == [] <==> missing == []
    requires vs != [] ==> side.Carries(vs, missing)
    ensures InBounds(vs) && Says(side, missing, MsgFor(vs)) && Bases(vs) <= {side.msg.buf}
  {
    hide AddRequest;
    hide Entries;
    hide Gather;
  }
}
