/** Addresses are batched per family, tested at flush time, and the missing ones
    are sent with one scatter-gather vector over the batch buffers. */
module Ipset {
  import opened Bytes
  import opened Netlink
  import opened IpsetMsg

  const IOV_N := 40
  const MSG_N := 20

  /** struct iovec: a piece of some buffer. */
  datatype Iov = Iov(base: array<byte>, off: nat, len: nat)

  /** One message to be sent: `count` pieces from `start` on. */
  datatype Vec = Vec(start: nat, count: nat)

  ghost function Bases(vs: seq<Iov>): set<object> { set i | 0 <= i < |vs| :: vs[i].base }

  ghost predicate InBounds(vs: seq<Iov>) { forall i :: 0 <= i < |vs| ==> vs[i].off + vs[i].len <= vs[i].base.Length }

  /** What the kernel reads when it is handed these pieces. */
  ghost function Gather(vs: seq<Iov>): bytes
    requires InBounds(vs)
    reads Bases(vs)
  {
    if vs == [] then []
    else
      var v := vs[|vs| - 1];
      assert v.base in Bases(vs) && Bases(vs[..|vs| - 1]) <= Bases(vs);
      Gather(vs[..|vs| - 1]) + v.base[v.off..v.off + v.len]
  }

  lemma {:induction false} GatherAppend(vs: seq<Iov>, ws: seq<Iov>)
    requires InBounds(vs) && InBounds(ws)
    ensures InBounds(vs + ws) && Gather(vs + ws) == Gather(vs) + Gather(ws)
    decreases |ws|
  {
    if ws == [] {
      assert vs + ws == vs;
    } else {
      assert (vs + ws)[..|vs + ws| - 1] == vs + ws[..|ws| - 1];
      GatherAppend(vs, ws[..|ws| - 1]);
    }
  }

  // ---------------------------------------------------------------- choosing

  /** The addresses whose bit, counted from `bit` on, is not set. */
  function Missing(ips: seq<bytes>, known: seq<bool>, bit: nat): (r: seq<bytes>)
    requires bit + |ips| <= |known|
    ensures |r| <= |ips|
  {
    if ips == [] then []
    else
      var n := |ips| - 1;
      Missing(ips[..n], known, bit) + if known[bit + n] then [] else [ips[n]]
  }

  /** The pieces of `buf` that hold the chosen ones of `n` elements. */
  function Picked(buf: array<byte>, base: nat, size: nat, known: seq<bool>, bit: nat, n: nat): (r: seq<Iov>)
    requires bit + n <= |known|
    ensures |r| <= n
  {
    if n == 0 then []
    else Picked(buf, base, size, known, bit, n - 1) + if known[bit + n - 1] then []
        else [Iov(buf, base + Span(n - 1, size), size)]
  }

  lemma NonePicked(buf: array<byte>, base: nat, size: nat, known: seq<bool>, bit: nat)
    requires bit <= |known|
    ensures Span(0, size) == 0 && Picked(buf, base, size, known, bit, 0) == []
  {
  }

  lemma PickedStep(buf: array<byte>, base: nat, size: nat, known: seq<bool>, bit: nat, n: nat)
    requires bit + n < |known|
    ensures Span(n + 1, size) == Span(n, size) + size
    ensures Picked(buf, base, size, known, bit, n + 1)
            == Picked(buf, base, size, known, bit, n)
               + if known[bit + n] then [] else [Iov(buf, base + Span(n, size), size)]
  {
  }

  lemma {:induction false} PickedPieces(buf: array<byte>, base: nat, size: nat, known: seq<bool>, bit: nat, n: nat)
    requires bit + n <= |known| && base + Span(n, size) <= buf.Length
    ensures var r := Picked(buf, base, size, known, bit, n); InBounds(r) && Bases(r) <= {buf} && forall i ::
              0 <= i < |r| ==> r[i].len == size
  {
    if n == 0 {
    } else {
      PickedPieces(buf, base, size, known, bit, n - 1);
    }
  }

  /** The chosen pieces hold exactly the missing elements. */
  lemma {:induction false} GatherPicked(buf: array<byte>, base: nat, size: nat, cs: seq<bytes>, known: seq<bool>,
                                        bit: nat)
    requires Sized(cs, size) && bit + |cs| <= |known| && base + Span(|cs|, size) <= buf.Length
    requires buf[base..base + Span(|cs|, size)] == Concat(cs)
    ensures InBounds(Picked(buf, base, size, known, bit, |cs|))
    ensures Gather(Picked(buf, base, size, known, bit, |cs|)) == Concat(Missing(cs, known, bit))
    decreases |cs|
  {
    hide Gather;
    hide InBounds;
    hide Concat;
    hide Missing;
    hide Span;
    hide Picked;
    if cs == [] {
      NoPieces(known, bit);
      NonePicked(buf, base, size, known, bit);
    } else {
      var n := |cs| - 1;
      PickedStep(buf, base, size, known, bit, n);
      ConcatLast(cs);
      ConcatSize(cs[..n], size);
      EntryBytes(buf, base, Span(n, size), size, Concat(cs[..n]), cs[n]);
      GatherPicked(buf, base, size, cs[..n], known, bit);
      assert cs == cs[..n] + [cs[n]];
      MissingStep(cs[..n], cs[n], known, bit);
      OneMorePick(Picked(buf, base, size, known, bit, n), Iov(buf, base + Span(n, size), size),
          Missing(cs[..n], known, bit), cs[n]);
    }
  }

  lemma NoPieces(known: seq<bool>, bit: nat)
    requires bit <= |known|
    ensures InBounds([]) && Gather([]) == [] && Concat([]) == [] && Missing([], known, bit) == []
  {
  }

  lemma ConcatLast(cs: seq<bytes>)
    requires cs != []
    ensures Concat(cs) == Concat(cs[..|cs| - 1]) + cs[|cs| - 1]
  {
  }

  lemma OneMorePick(vs: seq<Iov>, v: Iov, cs: seq<bytes>, c: bytes)
    requires InBounds(vs) && Gather(vs) == Concat(cs) && v.off + v.len <= v.base.Length
    requires v.base[v.off..v.off + v.len] == c
    ensures InBounds(vs + [v]) && Gather(vs + [v]) == Concat(cs + [c])
    ensures vs + [] == vs && cs + [] == cs
  {
    hide Gather;
    hide Concat;
    GatherPush(vs, v);
    assert (cs + [c])[..|cs|] == cs;
    ConcatLast(cs + [c]);
  }

  lemma GatherPush(vs: seq<Iov>, v: Iov)
    requires InBounds(vs) && v.off + v.len <= v.base.Length
    ensures InBounds(vs + [v]) && Gather(vs + [v]) == Gather(vs) + v.base[v.off..v.off + v.len]
  {
    assert (vs + [v])[..|vs|] == vs;
  }

  lemma {:induction false} MissingEntries(nft: bool, v4: bool, ips: seq<bytes>, known: seq<bool>, bit: nat)
    requires bit + |ips| <= |known| && Addrs(v4, ips)
    ensures Addrs(v4, Missing(ips, known, bit))
    ensures Missing(EntryList(nft, v4, ips), known, bit) == EntryList(nft, v4, Missing(ips, known, bit))
  {
    hide Entry;
    hide EntryList;
    hide Missing;
    MissingAddrs(v4, ips, known, bit);
    if ips == [] {
      NoneMissing(nft, v4, known, bit);
    } else {
      var n := |ips| - 1;
      var front, rest := ips[..n], Missing(ips[..n], known, bit);
      MissingEntries(nft, v4, front, known, bit);
      assert ips == front + [ips[n]];
      EntryListStep(nft, v4, front, ips[n]);
      EntryListStep(nft, v4, rest, ips[n]);
      MissingAddrs(v4, front, known, bit);
      MissingStep(front, ips[n], known, bit);
      MissingStep(EntryList(nft, v4, front), Entry(nft, v4, ips[n]), known, bit);
    }
  }

  lemma {:induction false} MissingAddrs(v4: bool, ips: seq<bytes>, known: seq<bool>, bit: nat)
    requires bit + |ips| <= |known| && Addrs(v4, ips)
    ensures Addrs(v4, Missing(ips, known, bit))
  {
    if ips == [] {
    } else {
      MissingAddrs(v4, ips[..|ips| - 1], known, bit);
    }
  }

  lemma NoneMissing(nft: bool, v4: bool, known: seq<bool>, bit: nat)
    requires bit <= |known|
    ensures Missing([], known, bit) == [] && EntryList(nft, v4, []) == []
  {
  }

  lemma MissingStep(cs: seq<bytes>, c: bytes, known: seq<bool>, bit: nat)
    requires bit + |cs| < |known|
    ensures Missing(cs + [c], known, bit) == if known[bit + |cs|] then Missing(cs, known, bit)
            else Missing(cs, known, bit) + [c]
  {
    assert (cs + [c])[..|cs|] == cs;
  }

  lemma EntryBytes(buf: array<byte>, base: nat, n: nat, size: nat, b: bytes, c: bytes)
    requires base + n + size <= buf.Length && |b| == n && |c| == size && buf[base..base + n + size] == b + c
    ensures buf[base..base + n] == b && buf[base + n..base + n + size] == c
  {
    assert buf[base..base + n] == buf[base..base + n + size][..n];
    assert buf[base + n..base + n + size] == buf[base..base + n + size][n..];
  }

  lemma NoEntries(nft: bool, v4: bool)
    ensures Entries(nft, v4, []) == []
  {
  }

  // ---------------------------------------------------------------- the messages

  /** A plainly built add request. */
  function AddRequest(front: bytes, kind: u16, list: bytes): (m: bytes)
    requires 8 + |front| + |list| < 0x1_0000
    ensures |m| == 8 + |front| + |list|
  {
    PutLe32(8 + |front| + |list|) + (front + (Head(4 + |list|, kind) + list))
  }

  /** It says that its length is its size, and its list holds exactly the given addresses. */
  lemma {:induction false} AddRequestRead(front: bytes, header: bytes, attrs: seq<Attr>, kind: u16, nft: bool, v4: bool,
                                          ips: seq<bytes>)
    requires Built(front, header, attrs) && Addrs(v4, ips) && 8 + |front| + |Entries(nft, v4, ips)| < 0x1_0000
    ensures var list := Entries(nft, v4, ips);
            Message(AddRequest(front, kind, list), header, attrs + [Attr(kind, list)]) && AllReadAs(nft, v4, list, ips)
  {
    hide Entries;
    var list := Entries(nft, v4, ips);
    EntriesRead(nft, v4, ips);
    EntriesAligned(nft, v4, ips);
    SingleRead(list, kind);
    BuiltAppend(front, header, attrs, Head(4 + |list|, kind) + list, [Attr(kind, list)]);
    BodyRead(front + (Head(4 + |list|, kind) + list), header, attrs + [Attr(kind, list)]);
  }

  lemma EntriesAligned(nft: bool, v4: bool, ips: seq<bytes>)
    requires Addrs(v4, ips)
    ensures |Entries(nft, v4, ips)| % 4 == 0
  {
    hide Entries;
    EntriesSize(nft, v4, ips);
    SpanAligned(|ips|, EntrySize(nft, v4));
  }

  lemma {:induction false} SpanAligned(n: nat, size: nat)
    requires size % 4 == 0
    ensures Span(n, size) % 4 == 0
  {
    if n == 0 {
    } else {
      SpanAligned(n - 1, size);
    }
  }

  lemma {:induction false} BodyRead(body: bytes, header: bytes, attrs: seq<Attr>)
    requires Built(body, header, attrs) && 4 + |body| < 0x1_0000_0000
    ensures Message(PutLe32(4 + |body|) + body, header, attrs)
  {
    var m := PutLe32(4 + |body|) + body;
    AttrsShift(PutLe32(4 + |body|), body, HEADER_LEN - 4);
    assert m[4..HEADER_LEN] == header;
    assert Le32(m, 0) == Le32(PutLe32(4 + |body|), 0);
  }
  // ---------------------------------------------------------------- test requests

  /** A plainly built test request. */
  function TestRequest(front: bytes, nft: bool, v4: bool, ip: bytes): (m: bytes)
    requires |ip| == IpLen(v4) && |front| < 0x1_0000
  {
    PutLe32(4 + |front| + |TestTail(nft, v4, ip)|) + (front + TestTail(nft, v4, ip))
  }

  function TestRequests(front: bytes, nft: bool, v4: bool, ips: seq<bytes>): seq<bytes>
    requires Addrs(v4, ips) && |front| < 0x1_0000
  {
    if ips == [] then []
    else TestRequests(front, nft, v4, ips[..|ips| - 1]) + [TestRequest(front, nft, v4, ips[|ips| - 1])]
  }

  /** The address that a test request asks about. */
  function ReadTest(nft: bool, v4: bool, tail: bytes): Option<bytes> {
    if nft then
      var elem := Single(tail, 3 + NESTED);
      var payload := if elem.None? then None else Single(elem.value, 1 + NESTED);
      var key := if payload.None? then None else ReadNft(payload.value);
      if key.None? || key.value.0 != [] then None else Some(key.value.1)
    else
      var data := Single(tail, 7 + NESTED);
      if data.None? then None else ReadIpset(v4, data.value)
  }

  /** Its length is its size, and it asks about the given address. */
  lemma {:induction false} TestRequestRead(front: bytes, header: bytes, attrs: seq<Attr>, nft: bool, v4: bool,
                                           ip: bytes)
    requires Built(front, header, attrs) && |ip| == IpLen(v4) && |front| < 0x1_0000
    ensures exists more ::
              && Attrs(TestTail(nft, v4, ip), 0) == Some(more)
              && Message(TestRequest(front, nft, v4, ip), header, attrs + more)
    ensures ReadTest(nft, v4, TestTail(nft, v4, ip)) == Some(ip)
  {
    hide Message;
    hide Built;
    hide TestTail;
    hide ReadTest;
    var tail := TestTail(nft, v4, ip);
    TestTailRead(nft, v4, ip);
    BuiltAppend(front, header, attrs, tail, Attrs(tail, 0).value);
    BodyRead(front + tail, header, attrs + Attrs(tail, 0).value);
  }

  lemma {:induction false} TestTailRead(nft: bool, v4: bool, ip: bytes)
    requires |ip| == IpLen(v4)
    ensures Attrs(TestTail(nft, v4, ip), 0).Some? && |TestTail(nft, v4, ip)| <= 32
    ensures ReadTest(nft, v4, TestTail(nft, v4, ip)) == Some(ip)
  {
    hide Elem;
    hide Head;
    if nft {
      NftElemRead(ip, 0);
      SingleRead(NftElem(ip, 0), 3 + NESTED);
    } else {
      IpsetElemRead(v4, ip);
    }
  }

  /** A test request's last bytes are its address. */
  lemma {:induction false} TailEnds(nft: bool, v4: bool, x: bytes, ip: bytes) returns (h: bytes)
    requires |x| == |ip| == IpLen(v4)
    ensures TestTail(nft, v4, x) == h + x && TestTail(nft, v4, ip) == h + ip
  {
    hide Head;
    if nft {
      var g := ElemEnds(1 + NESTED, [], 1 + NESTED, 1 + NET_BYTEORDER, x, ip);
      h := Head(4 + 12 + |ip|, 3 + NESTED) + g;
      assert h + x == Head(4 + 12 + |ip|, 3 + NESTED) + (g + x) && h + ip == Head(4 + 12 + |ip|, 3 + NESTED) + (g + ip);
    } else {
      h := ElemEnds(7 + NESTED, [], 1 + NESTED, AddrKind(v4), x, ip);
    }
  }

  lemma ElemEnds(outer: u16, f: bytes, inner: u16, kind: u16, x: bytes, ip: bytes) returns (h: bytes)
    requires |f| <= 8 && |x| == |ip| <= 16
    ensures |h| == 12 + |f| && Elem(outer, f, inner, kind, x) == h + x && Elem(outer, f, inner, kind, ip) == h + ip
  {
    hide Head;
    var a, c, d := Head(12 + |f| + |ip|, outer), Head(8 + |ip|, inner), Head(4 + |ip|, kind);
    h := a + f + c + d;
    Opened(a, f, c, d, x);
    Opened(a, f, c, d, ip);
  }

  /** The address stands behind the three headers of its (first) element. */
  lemma {:induction false} EntryIp(nft: bool, v4: bool, ip: bytes)
    requires |ip| == IpLen(v4)
    ensures EntrySize(nft, v4) >= 12 + |ip| && Entry(nft, v4, ip)[12..12 + |ip|] == ip
  {
    hide Elem;
    hide Succ;
    var h: bytes;
    if nft {
      h := ElemEnds(1 + NESTED, [], 1 + NESTED, 1 + NET_BYTEORDER, ip, ip);
    } else {
      h := ElemEnds(7 + NESTED, [], 1 + NESTED, AddrKind(v4), ip, ip);
    }
    var rest := if nft then NftElem(Succ(ip), 1) else [];
    assert (h + ip + rest)[12..12 + |ip|] == ip;
  }

  /** A test request's two pieces, put together. */
  lemma {:induction false} TestBytes(test: array<byte>, len0: nat, buf: array<byte>, at: nat, front: bytes, nft: bool,
                                     v4: bool, x: bytes,
                  ip: bytes)
    requires |x| == |ip| == IpLen(v4) && |front| < 0x1_0000 && len0 + |ip| <= test.Length && at + |ip| <= buf.Length
    requires test[..len0 + |ip|] == TestRequest(front, nft, v4, x) && buf[at..at + |ip|] == ip
    ensures Gather([Iov(test, 0, len0), Iov(buf, at, |ip|)]) == TestRequest(front, nft, v4, ip)
  {
    hide TestTail;
    hide PutLe32;
    var h := TailEnds(nft, v4, x, ip);
    var p := PutLe32(4 + |front| + |h| + |ip|);
    assert TestRequest(front, nft, v4, x) == p + (front + h) + x
        && TestRequest(front, nft, v4, ip) == p + (front + h) + ip;
    assert test[..len0] == test[..len0 + |ip|][..len0] == p + (front + h);
    var a, b := Iov(test, 0, len0), Iov(buf, at, |ip|);
    assert [a, b][..1] == [a] && [a][..0] == [];
    assert Gather([a]) == [] + test[0..len0] == test[..len0];
  }

  /** What the kernel reads for message `v`. */
  ghost predicate Reads(iov: seq<Iov>, v: Vec, m: bytes)
    reads Bases(iov)
  {
    InBounds(iov) && v.start + v.count <= |iov| && (SliceBases(iov, v); Gather(iov[v.start..v.start + v.count]) == m)
  }

  lemma SliceBases(iov: seq<Iov>, v: Vec)
    requires InBounds(iov) && v.start + v.count <= |iov|
    ensures InBounds(iov[v.start..v.start + v.count]) && Bases(iov[v.start..v.start + v.count]) <= Bases(iov)
  {
    var piece := iov[v.start..v.start + v.count];
    forall i | 0 <= i < |piece| ensures piece[i].base in Bases(iov) {
      assert piece[i] == iov[v.start + i];
    }
  }

  /** sendmmsg: these are the messages that the kernel gets. */
  ghost predicate SentAre(iov: seq<Iov>, vecs: seq<Vec>, msgs: seq<bytes>)
    reads Bases(iov)
  {
    |vecs| == |msgs| && forall i :: 0 <= i < |vecs| ==> Reads(iov, vecs[i], msgs[i])
  }

  // ---------------------------------------------------------------- one family

  /** One family's half of struct ipset_addctx. When the option names no set for
      the family, msg is null in the program: `named` is false here. */
  class Side {
    const nft: bool
    const v4: bool
    const named: bool
    const msg: Nlmsg
    const test: Nlmsg
    const baselen: nat // nlmsg_len without any address
    var ipcnt: nat

    ghost const set0: SetName
    ghost const pid: u32
    ghost const front: bytes // the add request before its list
    ghost const testFront: bytes
    ghost const x: bytes // the address in the test request, before one is filled in
    ghost var nest: u16 // what the list's length field holds
    ghost var ips: seq<bytes> // the batch

    /** The two templates are made for the set. */
    ghost predicate Made() {
      && Built(front, set0.HeaderOf(v4, true, false, pid), set0.AttrsOf(true))
      && Built(testFront, set0.HeaderOf(v4, false, true, pid), set0.AttrsOf(false))
      && |x| == IpLen(v4) && HEADER_LEN <= baselen == |front| + 8 && baselen % 4 == 0 && set0.Nft? == nft
    }

    ghost predicate TestOk()
      reads test.buf
    {
      test.Valid() && test.buf.Length < 0x1_0000 && |x| == IpLen(v4) && test.Body() == testFront + TestTail(nft, v4, x)
    }

    ghost predicate AddOk()
      reads msg.buf, `nest
    {
      && msg.Valid() && HEADER_LEN <= baselen == |front| + 8 <= msg.Len() && baselen % 4 == 0
      && baselen + Span(IP_N, EntrySize(nft, v4)) <= msg.buf.Length < 0x1_0000
      && msg.buf[4..baselen] == front + Head(nest, set0.ListKind())
    }

    /** What also holds in the middle of a flush. */
    ghost predicate Base()
      reads this, msg.buf, test.buf
    {
      && ipcnt == |ips| <= IP_N && Addrs(v4, ips) && (!named ==> ips == []) && msg.buf != test.buf
      && (named ==> Made() && TestOk() && AddOk())
    }

    ghost predicate Valid()
      reads this, msg.buf, test.buf
    {
      Base() && (ipcnt > 0 ==> Holds())
    }

    /** The buffer holds the batch, and nothing else, behind the template. */
    ghost predicate Holds()
      requires Base() && named
      reads this, msg.buf, test.buf
    {
      msg.Len() == baselen + Span(ipcnt, EntrySize(nft, v4)) && msg.buf[baselen..msg.Len()] == Entries(nft, v4, ips)
    }

    constructor (nft: bool, v4: bool, name: Option<SetName>, pid: u32, contents: nat -> byte)
      requires name.Some? ==> name.value.Ok() && name.value.Nft? == nft
      ensures Valid() && ips == [] && this.nft == nft && this.v4 == v4 && named == name.Some?
      ensures fresh(msg.buf) && fresh(test.buf) && (named ==> set0 == name.value) && this.pid == pid
    {
      hide Head;
      hide Le32;
      hide PutLe32;
      hide EntrySize;
      hide Span;
      hide Built;
      hide TestTail;
      hide SetName.HeaderOf;
      hide SetName.AttrsOf;
      AddSizeBound(nft, v4);
      var m := new Nlmsg(if name.Some? then AddSize(nft, v4) else HEADER_LEN, contents);
      var t := new Nlmsg(if name.Some? then TestSize(nft, v4) else HEADER_LEN, contents);
      var len := HEADER_LEN;
      ghost var f, tf, y := [], [], [];
      if name.Some? {
        var ok;
        ok, f := InitAddMsg(m, name.value, v4, pid);
        len := m.Len();
        ok, tf, y := InitTestMsg(t, name.value, v4, true, pid);
      }
      this.nft, this.v4, named, this.pid, msg, test, baselen := nft, v4, name.Some?, pid, m, t, len;
      ipcnt, ips, nest, front, testFront, x := 0, [], 4, f, tf, y;
      set0 := if name.Some? then name.value else Ipset([]);
    }

    /** The part of ipset_add_ip after the flush. */
    method Add(ip: bytes)
      requires Valid() && named && |ip| == IpLen(v4) && ipcnt < IP_N
      modifies msg.buf, `ipcnt, `ips
      ensures Valid() && ips == old(ips) + [ip]
    {
      hide EntrySize;
      hide Entries;
      hide Made;
      hide TestOk;
      hide AddOk;
      hide Entry;
      if ipcnt == 0 { Reset(); }
      SpanMonotone(ipcnt + 1, IP_N, EntrySize(nft, v4));
      EntriesStep(nft, v4, ips, ip);
      Append(ip);
      ipcnt, ips := ipcnt + 1, ips + [ip];
    }

    method Reset()
      requires Base() && named && ips == []
      modifies msg.buf
      ensures Base() && Holds()
    {
      hide Head;
      hide Le32;
      hide PutLe32;
      hide EntrySize;
      hide Made;
      hide TestOk;
      NoEntries(nft, v4);
      ghost var b := msg.buf[4..baselen];
      msg.SetLen(baselen);
      assert msg.buf[4..baselen] == b;
    }

    method Append(ip: bytes)
      requires Base() && named && Holds() && |ip| == IpLen(v4)
      requires Span(ipcnt + 1, EntrySize(nft, v4)) <= Span(IP_N, EntrySize(nft, v4))
      modifies msg.buf
      ensures Base() && msg.Len() == old(msg.Len()) + EntrySize(nft, v4)
      ensures msg.buf[baselen..msg.Len()] == Entries(nft, v4, ips) + Entry(nft, v4, ip)
    {
      hide Head;
      hide Le32;
      hide PutLe32;
      hide EntrySize;
      hide Entries;
      hide Entry;
      hide Made;
      hide TestOk;
      ghost var b, len := msg.Body(), msg.Len();
      AddIp(msg, nft, v4, ip);
      assert b[..baselen - 4] == old(msg.buf[4..baselen]) && b[baselen - 4..] == Entries(nft, v4, ips);
      assert msg.buf[4..baselen] == msg.Body()[..baselen - 4] == b[..baselen - 4];
      assert msg.buf[baselen..msg.Len()] == msg.Body()[baselen - 4..] == b[baselen - 4..] + Entry(nft, v4, ip);
    }

    // ------------------------------------------------------------ flushing

    /** The inner loop of end_add_ip_*: the pieces for the missing elements. */
    method FillPicks(iov: array<Iov>, at: nat, known: seq<bool>, bit: nat) returns (n: nat)
      requires at + ipcnt <= iov.Length && bit + ipcnt <= |known|
      modifies iov
      ensures at + n <= iov.Length && iov[at..at + n] == Picked(msg.buf, baselen, EntrySize(nft, v4), known, bit, ipcnt)
      ensures iov[..at] == old(iov[..at])
    {
      hide EntrySize;
      hide Picked;
      hide Span;
      n := 0;
      var elem := baselen;
      NonePicked(msg.buf, baselen, EntrySize(nft, v4), known, bit);
      for i := 0 to ipcnt
        invariant elem == baselen + Span(i, EntrySize(nft, v4)) && n <= i
        invariant iov[at..at + n] == Picked(msg.buf, baselen, EntrySize(nft, v4), known, bit, i)
        invariant iov[..at] == old(iov[..at])
      {
        PickedStep(msg.buf, baselen, EntrySize(nft, v4), known, bit, i);
        if !known[bit + i] {
          ghost var before := iov[at..at + n];
          iov[at + n] := Iov(msg.buf, elem, EntrySize(nft, v4));
          assert iov[at..at + n + 1] == before + [iov[at + n]];
          n := n + 1;
        }
        elem := elem + EntrySize(nft, v4);
      }
    }

    /** The list's length and the message's are set for `n` elements. */
    method PatchLengths(n: nat) returns (e: nat)
      requires Base() && named && n <= IP_N && msg.Len() == baselen
      modifies msg.buf, `nest
      ensures Base() && forall i :: baselen <= i < msg.buf.Length ==> msg.buf[i] == old(msg.buf[i])
      ensures e == Span(n, EntrySize(nft, v4)) && baselen + e <= msg.buf.Length
      ensures msg.buf[..baselen] == Template(front, set0.ListKind(), e)
    {
      hide Made;
      hide TestOk;
      hide EntrySize;
      hide Span;
      hide Head;
      hide Le32;
      hide PutLe32;
      e := n * EntrySize(nft, v4);
      SpanSizes(nft, v4, n);
      PatchNest(NLA_HDRLEN + e);
      PatchLen(e);
    }

    method PatchLen(e: nat)
      requires Base() && named && msg.Len() == baselen && baselen + e <= msg.buf.Length && e % 4 == 0
      requires nest == NLA_HDRLEN + e
      modifies msg.buf
      ensures Base() && forall i :: baselen <= i < msg.buf.Length ==> msg.buf[i] == old(msg.buf[i])
      ensures msg.buf[..baselen] == Template(front, set0.ListKind(), e)
    {
      hide Made;
      hide TestOk;
      hide EntrySize;
      hide Span;
      hide Head;
      hide Le32;
      hide PutLe32;
      ghost var b := msg.buf[4..baselen];
      AlignedSum(baselen, e);
      msg.SetLen(baselen + e);
      assert msg.buf[4..baselen] == b;
      assert msg.buf[..baselen] == msg.buf[..4] + b;
    }

    method PatchNest(len: u16)
      requires Base() && named && msg.Len() == baselen
      modifies msg.buf, `nest
      ensures Base() && nest == len && msg.Len() == baselen
      ensures forall i :: baselen <= i < msg.buf.Length ==> msg.buf[i] == old(msg.buf[i])
    {
      hide Addrs;
      hide Made;
      hide TestOk;
      hide EntrySize;
      hide Span;
      hide Le32;
      hide PutLe32;
      hide Head;
      ghost var b := msg.buf[4..baselen];
      msg.Put(baselen - NLA_HDRLEN, PutLe16(len));
      nest := len;
      Overwritten(msg.buf, b, |front|, len);
      PatchEnd(front, old(nest), len, set0.ListKind());
      assert msg.buf[4..baselen] == front + Head(nest, set0.ListKind());
      assert msg.Len() == old(msg.Len());
    }

    /** One family of end_add_ip_*. Afterwards the buffer may hold anything behind
        its template: the batch is over. */
    method Fill(iov: array<Iov>, at: nat, known: seq<bool>, bit: nat) returns (n: nat)
      requires Valid() && ipcnt > 0 && at + 1 + ipcnt <= iov.Length && bit + ipcnt <= |known|
      modifies iov, msg.buf, `nest
      ensures Base() && n == |Missing(ips, known, bit)| && iov[..at] == old(iov[..at])
      ensures n > 0 ==> Carries(iov[at..at + 1 + n], Missing(ips, known, bit))
    {
      hide Made;
      hide TestOk;
      hide AddOk;
      hide EntrySize;
      hide Entries;
      hide Carries;
      hide Missing;
      Rewind();
      n := FillVec(iov, at, known, bit);
      if n > 0 { Seal(known, bit, n); }
    }

    method FillVec(iov: array<Iov>, at: nat, known: seq<bool>, bit: nat) returns (n: nat)
      requires 4 <= msg.buf.Length && msg.Len() == baselen && ipcnt == |ips|
      requires at + 1 + ipcnt <= iov.Length && bit + ipcnt <= |known|
      modifies iov
      ensures n == |Missing(ips, known, bit)| && at + 1 + n <= iov.Length && iov[..at] == old(iov[..at])
      ensures iov[at..at + 1 + n] == [Iov(msg.buf, 0, baselen)]
              + Picked(msg.buf, baselen, EntrySize(nft, v4), known, bit, ipcnt)
    {
      hide EntrySize;
      hide Le32;
      iov[at] := Iov(msg.buf, 0, msg.Len());
      n := FillPicks(iov, at + 1, known, bit);
      PickedCount(msg.buf, baselen, EntrySize(nft, v4), ips, known, bit);
      assert iov[..at + 1][..at] == iov[..at];
      assert iov[at..at + 1 + n] == [iov[at]] + iov[at + 1..at + 1 + n];
    }

    /** The pieces become a request when the two lengths are patched. */
    method Seal(known: seq<bool>, bit: nat, n: nat)
      requires Base() && named && msg.Len() == baselen && bit + ipcnt <= |known| && n == |Missing(ips, known, bit)|
      requires baselen + Span(ipcnt, EntrySize(nft, v4)) <= msg.buf.Length
      requires msg.buf[baselen..baselen + Span(ipcnt, EntrySize(nft, v4))] == Entries(nft, v4, ips)
      modifies msg.buf, `nest
      ensures Base()
      ensures Carries([Iov(msg.buf, 0, baselen)] + Picked(msg.buf, baselen, EntrySize(nft, v4), known, bit, ipcnt),
              Missing(ips, known, bit))
    {
      hide Made;
      hide TestOk;
      hide EntrySize;
      hide Entries;
      hide Template;
      hide AddRequest;
      hide Missing;
      hide Picked;
      hide Gather;
      hide Head;
      hide Le32;
      ghost var elems := msg.buf[baselen..baselen + Span(ipcnt, EntrySize(nft, v4))];
      var e := PatchLengths(n);
      assert msg.buf[baselen..baselen + Span(ipcnt, EntrySize(nft, v4))] == elems;
      FlushBytes(msg.buf, baselen, front, set0.ListKind(), nft, v4, ips, known, bit);
    }

    /** Fill, when there is anything to flush: the number of pieces used. */
    method FillAny(iov: array<Iov>, at: nat, known: seq<bool>, bit: nat) returns (c: nat)
      requires Valid() && at + 1 + ipcnt <= iov.Length && bit + ipcnt <= |known|
      modifies iov, msg.buf, `nest
      ensures Base() && at + c <= iov.Length && iov[..at] == old(iov[..at])
      ensures (c == 0 <==> Missing(ips, known, bit) == [])
      ensures c <= 1 + ipcnt && (c > 0 ==> Carries(iov[at..at + c], Missing(ips, known, bit)))
    {
      hide Made;
      hide TestOk;
      hide AddOk;
      hide Carries;
      c := 0;
      if ipcnt > 0 {
        var n := Fill(iov, at, known, bit);
        c := if n > 0 then 1 + n else 0;
      }
    }

    /** These pieces are one add request for `missing`. */
    ghost predicate Carries(vs: seq<Iov>, missing: seq<bytes>)
      reads Bases(vs)
    {
      && Addrs(v4, missing) && 8 + |front| + |Entries(nft, v4, missing)| < 0x1_0000
      && InBounds(vs) && Bases(vs) <= {msg.buf} && Gather(vs)
          == AddRequest(front, set0.ListKind(), Entries(nft, v4, missing))
    }

    /** The batch is over. */
    method Clear()
      requires Base()
      modifies `ipcnt, `ips
      ensures Valid() && ips == []
    {
      hide Made;
      hide TestOk;
      hide AddOk;
      ipcnt, ips := 0, [];
    }

    method Rewind()
      requires Valid() && ipcnt > 0
      modifies msg.buf
      ensures Base() && 4 <= msg.buf.Length && msg.Len() == baselen
      ensures baselen + Span(ipcnt, EntrySize(nft, v4)) <= msg.buf.Length
      ensures msg.buf[baselen..baselen + Span(ipcnt, EntrySize(nft, v4))] == Entries(nft, v4, ips)
    {
      hide Head;
      hide Le32;
      hide PutLe32;
      hide EntrySize;
      hide Entries;
      hide Made;
      hide TestOk;
      ghost var b, c := msg.buf[4..baselen], msg.buf[baselen..msg.Len()];
      msg.SetLen(baselen);
      assert msg.buf[4..baselen] == b && msg.buf[baselen..baselen + |c|] == c;
    }

    // ------------------------------------------------------------ testing

    /** One family of test_ips: for each address of the batch a message of two pieces. */
    method FillTests(iov: array<Iov>, msgv: array<Vec>, n0: nat)
      requires Valid() && 2 * (n0 + ipcnt) <= iov.Length && n0 + ipcnt <= msgv.Length
      modifies iov, msgv
      ensures iov[..2 * n0] == old(iov[..2 * n0]) && msgv[..n0] == old(msgv[..n0])
      ensures msgv[n0..n0 + ipcnt] == TestVecs(n0, ipcnt) && iov[2 * n0..2 * (n0 + ipcnt)] == Pieces()
    {
      hide EntrySize;
      hide Made;
      hide AddOk;
      hide TestOk;
      if ipcnt > 0 {
        PutTests(iov, msgv, n0, test.buf, TestLen0(), msg.buf, baselen, EntrySize(nft, v4), IpLen(v4), ipcnt);
      }
    }

    lemma Count()
      requires Valid()
      ensures ipcnt == |ips| <= IP_N
    {
    }

    ghost function Pieces(): seq<Iov>
      requires Valid()
      reads this, msg.buf, test.buf
    {
      if ipcnt == 0 then [] else TestPieces(test.buf, TestLen0(), msg.buf, baselen, EntrySize(nft, v4), IpLen(v4),
          ipcnt)
    }

    /** The batch's test requests, plainly built. */
    ghost function Requests(): seq<bytes>
      requires Valid()
      reads this, msg.buf, test.buf
    {
      if ipcnt == 0 then [] else assert TestOk() && |test.Body()| >= |testFront|; TestRequests(testFront, nft, v4, ips)
    }

    /** What the pieces that FillTests leaves in `iov` say. */
    lemma {:induction false} PiecesSay(iov: seq<Iov>, n0: nat)
      requires Valid() && InBounds(iov) && 2 * (n0 + ipcnt) <= |iov| && iov[2 * n0..2 * (n0 + ipcnt)] == Pieces()
      ensures SentAre(iov, TestVecs(n0, ipcnt), Requests())
    {
      hide EntrySize;
      hide Made;
      hide Head;
      hide Le32;
      hide TestTail;
      hide Reads;
      hide Entries;
      hide TestPieces;
      if ipcnt > 0 {
        TestTemplate();
        TestsSent(iov, n0, test.buf, TestLen0(), msg.buf, baselen, testFront, nft, v4, x, ips);
      }
    }

    lemma TestTemplate()
      requires TestOk()
      ensures |testFront| < 0x1_0000 && test.buf[..test.Len()] == TestRequest(testFront, nft, v4, x)
      ensures test.Len() >= IpLen(v4)
    {
      hide TestTail;
      var b := [test.buf[0], test.buf[1], test.buf[2], test.buf[3]];
      Le32Digits(b);
      assert test.buf[..test.Len()] == b + test.Body();
      assert |TestTail(nft, v4, x)| >= IpLen(v4) by { TailSize(nft, v4, x); }
    }

    lemma PiecesOk()
      requires Valid()
      ensures InBounds(Pieces()) && |Pieces()| == 2 * ipcnt
    {
      hide EntrySize;
      hide Made;
      hide Head;
      hide Le32;
      hide TestTail;
      if ipcnt == 0 {
      } else {
        EntryIp(nft, v4, ips[0]);
        EntriesSize(nft, v4, ips);
        TestPiecesOk(test.buf, TestLen0(), msg.buf, baselen, EntrySize(nft, v4), IpLen(v4), ipcnt);
      }
    }

    function TestLen0(): nat
      requires named && TestOk()
      reads test.buf
    {
      assert |TestTail(nft, v4, x)| >= IpLen(v4);
      test.Len() - IpLen(v4)
    }
  }

  /** next_ip_*: where the next address stands in the batch. */
  function NextIp(base: nat, size: nat, p: Option<nat>): nat {
    if p.None? then base + 4 * 3 else p.value + size
  }

  /** For each address of a batch a message of two pieces: the test request up to
      its address, and the address where it stands. */
  method PutTests(iov: array<Iov>, msgv: array<Vec>, n0: nat, test: array<byte>, len0: nat, buf: array<byte>, base: nat,
                  size: nat, iplen: nat, n: nat)
    requires 2 * (n0 + n) <= iov.Length && n0 + n <= msgv.Length
    modifies iov, msgv
    ensures iov[..2 * n0] == old(iov[..2 * n0]) && msgv[..n0] == old(msgv[..n0])
    ensures msgv[n0..n0 + n] == TestVecs(n0, n)
    ensures iov[2 * n0..2 * (n0 + n)] == TestPieces(test, len0, buf, base, size, iplen, n)
  {
    hide Span;
    hide TestPieces;
    hide TestVecs;
    TestsStep(test, len0, buf, base, size, iplen, n0, 0);
    var p: Option<nat> := None;
    for i := 0 to n
      invariant p == if i == 0 then None else Some(base + 12 + Span(i - 1, size))
      invariant iov[..2 * n0] == old(iov[..2 * n0]) && msgv[..n0] == old(msgv[..n0])
      invariant msgv[n0..n0 + i] == TestVecs(n0, i)
      invariant iov[2 * n0..2 * (n0 + i)] == TestPieces(test, len0, buf, base, size, iplen, i)
    {
      TestsStep(test, len0, buf, base, size, iplen, n0, i);
      p := Some(NextIp(base, size, p));
      PutTest(iov, msgv, n0, n0 + i, Iov(test, 0, len0), Iov(buf, p.value, iplen));
    }
  }

  lemma TestsStep(test: array<byte>, len0: nat, buf: array<byte>, base: nat, size: nat, iplen: nat, n0: nat, i: nat)
    ensures TestPieces(test, len0, buf, base, size, iplen, 0) == [] && TestVecs(n0, 0) == []
    ensures TestPieces(test, len0, buf, base, size, iplen, i + 1)
            == TestPieces(test, len0, buf, base, size, iplen, i)
                + [Iov(test, 0, len0), Iov(buf, base + 12 + Span(i, size), iplen)]
    ensures TestVecs(n0, i + 1) == TestVecs(n0, i) + [Vec(2 * (n0 + i), 2)]
    ensures NextIp(base, size, if i == 0 then None else Some(base + 12 + Span(i - 1, size))) == base + 12
            + Span(i, size)
  {
  }

  method PutTest(iov: array<Iov>, msgv: array<Vec>, n0: nat, m: nat, a: Iov, b: Iov)
    requires n0 <= m < msgv.Length && 2 * m + 2 <= iov.Length
    modifies iov, msgv
    ensures iov[..2 * n0] == old(iov[..2 * n0]) && iov[2 * n0..2 * m + 2] == old(iov[2 * n0..2 * m]) + [a, b]
    ensures msgv[..n0] == old(msgv[..n0]) && msgv[n0..m + 1] == old(msgv[n0..m]) + [Vec(2 * m, 2)]
  {
    iov[2 * m] := a;
    iov[2 * m + 1] := b;
    msgv[m] := Vec(2 * m, 2);
  }

  lemma TailSize(nft: bool, v4: bool, ip: bytes)
    requires |ip| == IpLen(v4)
    ensures |TestTail(nft, v4, ip)| >= IpLen(v4)
  {
    var h := TailEnds(nft, v4, ip, ip);
  }

  /** The pieces of `n` test requests. */
  function TestPieces(test: array<byte>, len0: nat, buf: array<byte>, base: nat, size: nat, iplen: nat,
                      n: nat): (r: seq<Iov>)
    ensures |r| == 2 * n
  {
    if n == 0 then []
    else
      TestPieces(test, len0, buf, base, size, iplen, n - 1)
      + [Iov(test, 0, len0), Iov(buf, base + 12 + Span(n - 1, size), iplen)]
  }

  function TestVecs(n0: nat, n: nat): (r: seq<Vec>)
    ensures |r| == n
  {
    if n == 0 then [] else TestVecs(n0, n - 1) + [Vec(2 * (n0 + n - 1), 2)]
  }

  lemma {:induction false} PickedCount(buf: array<byte>, base: nat, size: nat, cs: seq<bytes>, known: seq<bool>,
                                       bit: nat)
    requires bit + |cs| <= |known|
    ensures |Picked(buf, base, size, known, bit, |cs|)| == |Missing(cs, known, bit)|
  {
    if cs == [] {
    } else {
      PickedCount(buf, base, size, cs[..|cs| - 1], known, bit);
    }
  }

  /** The template and the chosen elements are one plainly built request. */
  lemma {:induction false} FlushBytes(buf: array<byte>, base: nat, front: bytes, kind: u16, nft: bool, v4: bool,
                                      ips: seq<bytes>, known: seq<bool>, bit: nat)
    requires Addrs(v4, ips) && bit + |ips| <= |known| && base == 8 + |front|
    requires base + Span(|ips|, EntrySize(nft, v4)) <= buf.Length < 0x1_0000
    requires buf[base..base + Span(|ips|, EntrySize(nft, v4))] == Entries(nft, v4, ips)
    requires base + Span(|Missing(ips, known, bit)|, EntrySize(nft, v4)) < 0x1_0000
    requires buf[..base] == Template(front, kind, Span(|Missing(ips, known, bit)|, EntrySize(nft, v4)))
    ensures var vs, missing := [Iov(buf, 0, base)] + Picked(buf, base, EntrySize(nft, v4), known, bit, |ips|),
            Missing(ips, known, bit);
            && Addrs(v4, missing) && 8 + |front| + |Entries(nft, v4, missing)| < 0x1_0000
            && InBounds(vs) && Bases(vs) <= {buf} && Gather(vs) == AddRequest(front, kind, Entries(nft, v4, missing))
  {
    hide EntrySize;
    hide EntryList;
    hide Entry;
    var size, missing := EntrySize(nft, v4), Missing(ips, known, bit);
    var picked := Picked(buf, base, size, known, bit, |ips|);
    MissingEntries(nft, v4, ips, known, bit);
    EntriesSize(nft, v4, missing);
    EntriesSized(nft, v4, ips);
    PickedPieces(buf, base, size, known, bit, |ips|);
    GatherPicked(buf, base, size, EntryList(nft, v4, ips), known, bit);
    GatherFirst(buf, base, picked);
    RequestParts(front, kind, Entries(nft, v4, missing));
  }

  lemma EntriesSized(nft: bool, v4: bool, ips: seq<bytes>)
    requires Addrs(v4, ips)
    ensures Sized(EntryList(nft, v4, ips), EntrySize(nft, v4))
  {
  }

  lemma {:induction false} GatherFirst(buf: array<byte>, base: nat, vs: seq<Iov>)
    requires base <= buf.Length && InBounds(vs) && Bases(vs) <= {buf}
    ensures InBounds([Iov(buf, 0, base)] + vs) && Bases([Iov(buf, 0, base)] + vs) <= {buf}
    ensures Gather([Iov(buf, 0, base)] + vs) == buf[..base] + Gather(vs)
  {
    var first := [Iov(buf, 0, base)];
    GatherAppend(first, vs);
    assert first[..0] == [] && Gather(first[..0]) == [] && buf[0..base] == buf[..base];
    assert Gather(first) == buf[..base];
    forall i | 0 <= i < |first + vs| ensures (first + vs)[i].base == buf {
      if i > 0 { assert vs[i - 1].base in Bases(vs); }
    }
  }

  lemma RequestParts(front: bytes, kind: u16, list: bytes)
    requires 8 + |front| + |list| < 0x1_0000
    ensures Template(front, kind, |list|) + list == AddRequest(front, kind, list)
  {
    hide Head;
    hide PutLe32;
    var a, c := PutLe32(8 + |front| + |list|), Head(4 + |list|, kind);
    assert a + (front + c) + list == a + (front + (c + list));
  }

  lemma AlignedSum(a: nat, b: nat)
    requires a % 4 == 0 && b % 4 == 0
    ensures (a + b) % 4 == 0
  {
  }

  lemma {:induction false} SpanSizes(nft: bool, v4: bool, n: nat)
    requires n <= IP_N
    ensures n * EntrySize(nft, v4) == Span(n, EntrySize(nft, v4)) <= Span(IP_N, EntrySize(nft, v4))
    ensures Span(n, EntrySize(nft, v4)) <= 640 && Span(n, EntrySize(nft, v4)) % 4 == 0
  {
    SpanTimes(n, EntrySize(nft, v4));
    SpanMonotone(n, IP_N, EntrySize(nft, v4));
    SpanAligned(n, EntrySize(nft, v4));
  }

  /** A template with its lengths set for a list of `e` bytes. */
  function Template(front: bytes, kind: u16, e: nat): bytes
    requires 8 + |front| + e < 0x1_0000
  {
    PutLe32(8 + |front| + e) + (front + Head(4 + e, kind))
  }

  // ---------------------------------------------------------------- what the pieces say

  lemma {:induction false} TestPiecesOk(test: array<byte>, len0: nat, buf: array<byte>, base: nat, size: nat,
                                        iplen: nat, n: nat)
    requires len0 <= test.Length && base + Span(n, size) <= buf.Length && 12 + iplen <= size
    ensures InBounds(TestPieces(test, len0, buf, base, size, iplen, n))
    ensures Bases(TestPieces(test, len0, buf, base, size, iplen, n)) <= {test, buf}
  {
    if n == 0 {
    } else {
      TestPiecesOk(test, len0, buf, base, size, iplen, n - 1);
    }
  }

  /** The pieces for element `j` are the test request for its address. */
  lemma {:induction false} TestPiece(test: array<byte>, len0: nat, buf: array<byte>, base: nat, front: bytes, nft: bool,
                                     v4: bool, x: bytes, ips: seq<bytes>, j: nat)
    requires Addrs(v4, ips) && j < |ips| && |x| == IpLen(v4) && |front| < 0x1_0000 && len0 + IpLen(v4) <= test.Length
    requires test[..len0 + IpLen(v4)] == TestRequest(front, nft, v4, x)
    requires base + |Entries(nft, v4, ips)| <= buf.Length
    requires buf[base..base + |Entries(nft, v4, ips)|] == Entries(nft, v4, ips)
    ensures base + 12 + Span(j, EntrySize(nft, v4)) + IpLen(v4) <= buf.Length
    ensures Gather([Iov(test, 0, len0), Iov(buf, base + 12 + Span(j, EntrySize(nft, v4)), IpLen(v4))])
            == TestRequest(front, nft, v4, ips[j])
  {
    hide EntrySize;
    hide EntryList;
    hide Entry;
    hide TestRequest;
    hide Gather;
    var o, e := Span(j, EntrySize(nft, v4)), EntrySize(nft, v4);
    EntriesSized(nft, v4, ips);
    ConcatAt(EntryList(nft, v4, ips), e, j);
    EntryIp(nft, v4, ips[j]);
    ByteSlices(buf, base, Entries(nft, v4, ips), o, e, IpLen(v4));
    TestBytes(test, len0, buf, base + 12 + o, front, nft, v4, x, ips[j]);
  }

  lemma ByteSlices(buf: array<byte>, base: nat, s: bytes, o: nat, e: nat, n: nat)
    requires base + |s| <= buf.Length && buf[base..base + |s|] == s && o + e <= |s| && 12 + n <= e
    ensures buf[base + 12 + o..base + 12 + o + n] == s[o..o + e][12..12 + n]
  {
    var u, v := buf[base + 12 + o..base + 12 + o + n], s[o..o + e][12..12 + n];
    forall i | 0 <= i < n ensures u[i] == v[i] {
      assert buf[base..base + |s|][12 + o + i] == s[12 + o + i];
      assert s[o..o + e][12 + i] == s[o + 12 + i];
    }
  }

  /** Where the pieces of test request `j` are. */
  lemma {:induction false} TestPieceAt(test: array<byte>, len0: nat, buf: array<byte>, base: nat, size: nat, iplen: nat,
                                       n: nat, n0: nat, j: nat)
    requires j < n
    ensures TestPieces(test, len0, buf, base, size, iplen, n)[2 * j..2 * j + 2]
            == [Iov(test, 0, len0), Iov(buf, base + 12 + Span(j, size), iplen)]
    ensures TestVecs(n0, n)[j] == Vec(2 * (n0 + j), 2)
  {
    hide Span;
    var front := TestPieces(test, len0, buf, base, size, iplen, n - 1);
    var last := [Iov(test, 0, len0), Iov(buf, base + 12 + Span(n - 1, size), iplen)];
    if j < n - 1 {
      TestPieceAt(test, len0, buf, base, size, iplen, n - 1, n0, j);
      SliceOfLeft(front, last, 2 * j, 2 * j + 2);
    } else {
      assert (front + last)[|front|..|front| + 2] == last;
    }
  }

  lemma SliceOfLeft<T>(b: seq<T>, c: seq<T>, i: nat, j: nat)
    requires i <= j <= |b|
    ensures (b + c)[i..j] == b[i..j]
  {
  }

  lemma {:induction false} TestRequestAt(front: bytes, nft: bool, v4: bool, ips: seq<bytes>, j: nat)
    requires Addrs(v4, ips) && |front| < 0x1_0000 && j < |ips|
    ensures |TestRequests(front, nft, v4, ips)| == |ips|
    ensures TestRequests(front, nft, v4, ips)[j] == TestRequest(front, nft, v4, ips[j])
    decreases |ips|
  {
    hide TestRequest;
    var rest := ips[..|ips| - 1];
    if j < |ips| - 1 {
      TestRequestAt(front, nft, v4, rest, j);
    } else if rest != [] {
      TestRequestAt(front, nft, v4, rest, 0);
    }
  }

  /** One family's test requests are what the kernel gets. */
  lemma {:induction false} TestsSent(iov: seq<Iov>, n0: nat, test: array<byte>, len0: nat, buf: array<byte>, base: nat,
                  front: bytes, nft: bool, v4: bool, x: bytes, ips: seq<bytes>)
    requires InBounds(iov) && 2 * (n0 + |ips|) <= |iov|
    requires Addrs(v4, ips) && |x| == IpLen(v4) && |front| < 0x1_0000 && len0 + IpLen(v4) <= test.Length
    requires iov[2 * n0..2 * (n0 + |ips|)] == TestPieces(test, len0, buf, base, EntrySize(nft, v4), IpLen(v4), |ips|)
    requires test[..len0 + IpLen(v4)] == TestRequest(front, nft, v4, x)
    requires base + |Entries(nft, v4, ips)| <= buf.Length
    requires buf[base..base + |Entries(nft, v4, ips)|] == Entries(nft, v4, ips)
    ensures ips != [] ==> SentAre(iov, TestVecs(n0, |ips|), TestRequests(front, nft, v4, ips))
  {
    hide EntrySize;
    hide Entries;
    hide TestPieces;
    hide TestVecs;
    hide TestRequests;
    hide Reads;
    if ips != [] { TestRequestAt(front, nft, v4, ips, 0); }
    forall j | 0 <= j < |ips| ensures Reads(iov, TestVecs(n0, |ips|)[j], TestRequests(front, nft, v4, ips)[j]) {
      TestSent(iov, n0, test, len0, buf, base, front, nft, v4, x, ips, j);
    }
  }

  lemma {:induction false} TestSent(iov: seq<Iov>, n0: nat, test: array<byte>, len0: nat, buf: array<byte>, base: nat,
                 front: bytes, nft: bool, v4: bool, x: bytes, ips: seq<bytes>, j: nat)
    requires InBounds(iov) && 2 * (n0 + |ips|) <= |iov| && j < |ips|
    requires Addrs(v4, ips) && |x| == IpLen(v4) && |front| < 0x1_0000 && len0 + IpLen(v4) <= test.Length
    requires iov[2 * n0..2 * (n0 + |ips|)] == TestPieces(test, len0, buf, base, EntrySize(nft, v4), IpLen(v4), |ips|)
    requires test[..len0 + IpLen(v4)] == TestRequest(front, nft, v4, x)
    requires base + |Entries(nft, v4, ips)| <= buf.Length
    requires buf[base..base + |Entries(nft, v4, ips)|] == Entries(nft, v4, ips)
    ensures |TestRequests(front, nft, v4, ips)| == |ips|
    ensures Reads(iov, TestVecs(n0, |ips|)[j], TestRequests(front, nft, v4, ips)[j])
  {
    hide EntrySize;
    hide Entries;
    hide TestPieces;
    hide TestVecs;
    hide TestRequests;
    hide TestRequest;
    hide Gather;
    hide Span;
    hide Reads;
    TestRequestAt(front, nft, v4, ips, j);
    TestPieceAt(test, len0, buf, base, EntrySize(nft, v4), IpLen(v4), |ips|, n0, j);
    TestPiece(test, len0, buf, base, front, nft, v4, x, ips, j);
    SubSlice(iov, 2 * n0, 2 * (n0 + |ips|), 2 * j, 2 * j + 2);
    ReadsTwo(iov, 2 * (n0 + j), Iov(test, 0, len0), Iov(buf, base + 12 + Span(j, EntrySize(nft, v4)), IpLen(v4)),
        TestRequest(front, nft, v4, ips[j]));
  }

  lemma {:induction false} ReadsTwo(iov: seq<Iov>, i: nat, a: Iov, b: Iov, m: bytes)
    requires InBounds(iov) && i + 2 <= |iov| && iov[i..i + 2] == [a, b] && InBounds([a, b]) && Gather([a, b]) == m
    ensures Reads(iov, Vec(i, 2), m)
  {
    SliceBases(iov, Vec(i, 2));
  }

  lemma SubSlice<T>(s: seq<T>, a: nat, b: nat, c: nat, d: nat)
    requires a <= b <= |s| && c <= d <= b - a
    ensures s[a..b][c..d] == s[a + c..a + d]
  {
    var u, v := s[a..b][c..d], s[a + c..a + d];
    forall i | 0 <= i < |v| ensures u[i] == v[i] {
      assert s[a..b][c + i] == s[a + c + i];
    }
  }
}
