/** The messages that test and add addresses of an ipset or an nftables set. */
module IpsetMsg {
  import opened Bytes
  import opened Netlink

  const IP_N := 10 // addresses in one add request of one family
  const AF_INET: byte := 2
  const AF_INET6: byte := 10
  const NLM_F_REQUEST: u16 := 1
  const NLM_F_ACK: u16 := 4
  const CMD_IPSET_TEST: u16 := 0x060b
  const CMD_IPSET_ADD: u16 := 0x0609
  const CMD_NFT_GETSETELEM: u16 := 0x0a0d
  const CMD_NFT_NEWSETELEM: u16 := 0x0a0c

  function IpLen(v4: bool): nat { if v4 then 4 else 16 }

  function Family(v4: bool): byte { if v4 then AF_INET else AF_INET6 }

  // ---------------------------------------------------------------- intervals

  /** The address after `ip`, in network byte order; after the last comes the first. */
  function Succ(ip: bytes): (r: bytes)
    ensures |r| == |ip|
  {
    if ip == [] then []
    else
      var front, last := ip[..|ip| - 1], ip[|ip| - 1];
      if last == 255 then Succ(front) + [0] else front + [last + 1]
  }

  /** The number that an address stands for. */
  function Value(ip: bytes): nat {
    if ip == [] then 0 else 256 * Value(ip[..|ip| - 1]) + ip[|ip| - 1] as int
  }

  function Range(n: nat): (r: nat)
    ensures r > 0
  {
    if n == 0 then 1 else 256 * Range(n - 1)
  }

  lemma {:induction false} ValueBound(ip: bytes)
    ensures Value(ip) < Range(|ip|)
  {
    if ip == [] {
    } else {
      ValueBound(ip[..|ip| - 1]);
    }
  }

  lemma {:induction false} SuccValue(ip: bytes)
    ensures Value(Succ(ip)) == if Value(ip) + 1 == Range(|ip|) then 0 else Value(ip) + 1
  {
    if ip == [] {
    } else {
      var front := ip[..|ip| - 1];
      SuccValue(front);
      ValueBound(front);
      assert Succ(ip)[..|ip| - 1] == if ip[|ip| - 1] == 255 then Succ(front) else front;
    }
  }

  function Zeros(n: nat): bytes { seq(n, _ => 0) }

  /** Adds one to the address at `at`, from the last byte on while it wraps. */
  method Increment(buf: array<byte>, at: nat, n: nat)
    requires at + n <= buf.Length
    modifies buf
    ensures buf[at..at + n] == Succ(old(buf[at..at + n]))
    ensures forall i :: 0 <= i < buf.Length && !(at <= i < at + n) ==> buf[i] == old(buf[i])
  {
    ghost var ip := buf[at..at + n];
    var i := n;
    assert ip[..n] == ip && Succ(ip) == Succ(ip) + Zeros(0) && ip == ip + Zeros(0);
    while i > 0
      invariant 0 <= i <= n == |ip|
      invariant buf[at..at + n] == ip[..i] + Zeros(n - i) && Succ(ip) == Succ(ip[..i]) + Zeros(n - i)
      invariant forall k :: 0 <= k < buf.Length && !(at <= k < at + n) ==> buf[k] == old(buf[k])
    {
      i := i - 1;
      ghost var b := buf[at..at + n];
      var was := buf[at + i];
      assert was == b[i] == ip[i];
      buf[at + i] := if was == 255 then 0 else was + 1; // ++p[i]
      Carry(ip, i);
      assert buf[at..at + n] == b[i := if was == 255 then 0 else was + 1];
      if buf[at + i] > was { return; }
    }
  }

  /** One step of the addition. */
  lemma Carry(ip: bytes, i: nat)
    requires i < |ip|
    ensures ip[i] < 255 ==>
              Succ(ip[..i + 1]) + Zeros(|ip| - i - 1)
              == (ip[..i + 1] + Zeros(|ip| - i - 1))[i := ip[i] + 1]
    ensures ip[i] == 255 ==> Succ(ip[..i + 1]) + Zeros(|ip| - i - 1) == Succ(ip[..i]) + Zeros(|ip| - i)
    ensures ip[i] == 255 ==> ip[..i] + Zeros(|ip| - i) == (ip[..i + 1] + Zeros(|ip| - i - 1))[i := 0]
  {
    assert ip[..i + 1][..i] == ip[..i];
    assert [0] + Zeros(|ip| - i - 1) == Zeros(|ip| - i);
  }

  // ---------------------------------------------------------------- elements

  function AddrKind(v4: bool): u16 { (if v4 then 1 else 2) + NET_BYTEORDER }

  /** An address in two nested attributes, `f` standing before the inner one. */
  function Elem(outer: u16, f: bytes, inner: u16, kind: u16, ip: bytes): (r: bytes)
    requires |f| <= 8 && |ip| <= 16
    ensures |r| == 12 + |f| + |ip|
  {
    Head(12 + |f| + |ip|, outer) + (f + (Head(8 + |ip|, inner) + (Head(4 + |ip|, kind) + ip)))
  }

  /** DATA { IP { IPADDR_IPV4/6 } } */
  function IpsetElem(v4: bool, ip: bytes): (r: bytes)
    requires |ip| <= 16
    ensures |r| == 12 + |ip|
  {
    Elem(7 + NESTED, [], 1 + NESTED, AddrKind(v4), ip)
  }

  function FlagsAttr(flags: u32): (r: bytes)
    ensures |r| == if flags == 0 then 0 else 8
  {
    if flags == 0 then [] else Head(8, 3) + PutBe32(flags)
  }

  /** LIST_ELEM { FLAGS?, KEY { DATA_VALUE } } */
  function NftElem(ip: bytes, flags: u32): (r: bytes)
    requires |ip| <= 16
    ensures |r| == 12 + |FlagsAttr(flags)| + |ip|
  {
    Elem(1 + NESTED, FlagsAttr(flags), 1 + NESTED, 1 + NET_BYTEORDER, ip)
  }

  /** What one address takes in an add request: for nftables an interval, from
      the address up to, not including, its successor. */
  function Entry(nft: bool, v4: bool, ip: bytes): (r: bytes)
    requires |ip| == IpLen(v4)
    ensures |r| == EntrySize(nft, v4)
  {
    if nft then NftElem(ip, 0) + NftElem(Succ(ip), 1) else IpsetElem(v4, ip)
  }

  function EntrySize(nft: bool, v4: bool): nat {
    if nft then 4 * 7 + 4 + IpLen(v4) * 2 else 4 * 3 + IpLen(v4)
  }

  ghost predicate Addrs(v4: bool, ips: seq<bytes>) { forall i :: 0 <= i < |ips| ==> |ips[i]| == IpLen(v4) }

  /** What each address takes. */
  function EntryList(nft: bool, v4: bool, ips: seq<bytes>): (r: seq<bytes>)
    requires Addrs(v4, ips)
    ensures |r| == |ips| && forall i :: 0 <= i < |ips| ==> r[i] == Entry(nft, v4, ips[i])
  {
    if ips == [] then []
    else EntryList(nft, v4, ips[..|ips| - 1]) + [Entry(nft, v4, ips[|ips| - 1])]
  }

  function Entries(nft: bool, v4: bool, ips: seq<bytes>): bytes
    requires Addrs(v4, ips)
  {
    Concat(EntryList(nft, v4, ips))
  }

  lemma EntriesSize(nft: bool, v4: bool, ips: seq<bytes>)
    requires Addrs(v4, ips)
    ensures |Entries(nft, v4, ips)| == Span(|ips|, EntrySize(nft, v4))
  {
    ConcatSize(EntryList(nft, v4, ips), EntrySize(nft, v4));
  }

  lemma EntryListStep(nft: bool, v4: bool, ips: seq<bytes>, ip: bytes)
    requires Addrs(v4, ips) && |ip| == IpLen(v4)
    ensures Addrs(v4, ips + [ip]) && EntryList(nft, v4, ips + [ip]) == EntryList(nft, v4, ips) + [Entry(nft, v4, ip)]
  {
    hide Entry;
    assert (ips + [ip])[..|ips|] == ips;
  }

  /** One more address. */
  lemma EntriesStep(nft: bool, v4: bool, ips: seq<bytes>, ip: bytes)
    requires Addrs(v4, ips) && |ip| == IpLen(v4)
    ensures Addrs(v4, ips + [ip]) && Entries(nft, v4, ips + [ip]) == Entries(nft, v4, ips) + Entry(nft, v4, ip)
  {
    hide Entry;
    EntryListStep(nft, v4, ips, ip);
    assert (EntryList(nft, v4, ips) + [Entry(nft, v4, ip)])[..|ips|] == EntryList(nft, v4, ips);
  }

  // ---------------------------------------------------------------- building messages

  /** An element whose nests are still open. */
  function OpenElem(outer: u16, f: bytes, inner: u16, kind: u16, ip: bytes): bytes
    requires |f| <= 8 && |ip| <= 16
  {
    Head(4, outer) + (f + (Head(4, inner) + (Head(4 + |ip|, kind) + ip)))
  }

  /** Ending the two nests makes the element complete. */
  lemma {:induction false} NestsEnded(b: bytes, outer: u16, f: bytes, inner: u16, kind: u16, ip: bytes)
    requires |f| <= 8 && |ip| <= 16
    ensures Patch(Patch(b + OpenElem(outer, f, inner, kind, ip), |b| + 4 + |f|, 8 + |ip|), |b|, 12 + |f| + |ip|)
            == b + Elem(outer, f, inner, kind, ip)
  {
    hide Head;
    hide Patch;
    var c := Head(4 + |ip|, kind) + ip;
    var a := b + Head(4, outer) + f;
    assert b + OpenElem(outer, f, inner, kind, ip) == a + Head(4, inner) + c;
    PatchHead(a, 4, 8 + |ip|, inner, c);
    var d := f + (Head(8 + |ip|, inner) + c);
    assert a + Head(8 + |ip|, inner) + c == b + Head(4, outer) + d;
    PatchHead(b, 4, 12 + |f| + |ip|, outer, d);
    assert b + Head(12 + |f| + |ip|, outer) + d == b + (Head(12 + |f| + |ip|, outer) + d);
  }

  method EndNests(msg: Nlmsg, elem: nat, inner: nat, ghost b: bytes, ghost k1: u16, ghost f: bytes, ghost k2: u16,
                  ghost kind: u16, ghost ip: bytes)
    requires msg.Valid() && |f| <= 8 && |ip| <= 16 && |b| + 4 == elem >= HEADER_LEN && inner == elem + 4 + |f|
    requires msg.Body() == b + OpenElem(k1, f, k2, kind, ip)
    modifies msg.buf
    ensures msg.Valid() && msg.Len() == old(msg.Len()) && msg.Body() == b + Elem(k1, f, k2, kind, ip)
  {
    msg.EndNest(inner);
    msg.EndNest(elem);
    NestsEnded(b, k1, f, k2, kind, ip);
  }

  /** add_elem_ipset; a null address leaves what the buffer held. */
  method AddElemIpset(msg: Nlmsg, ip: Option<bytes>, v4: bool) returns (addr: nat, ghost x: bytes)
    requires msg.Valid() && msg.Len() + 12 + IpLen(v4) <= msg.buf.Length && (ip.Some? ==> |ip.value| == IpLen(v4))
    modifies msg.buf
    ensures msg.Valid() && msg.Len() == old(msg.Len()) + 12 + IpLen(v4)
    ensures |x| == IpLen(v4) && (ip.Some? ==> x == ip.value) && msg.Body() == old(msg.Body()) + IpsetElem(v4, x)
  {
    hide Head;
    ghost var b := msg.Body();
    var data := msg.AddNest(7);
    var ipNla := msg.AddNest(1);
    addr, x := msg.AddNla(AddrKind(v4), ip, IpLen(v4));
    Opened(b, Head(4, 7 + NESTED), [], Head(4, 1 + NESTED), Head(4 + |x|, AddrKind(v4)) + x);
    EndNests(msg, data, ipNla, b, 7 + NESTED, [], 1 + NESTED, AddrKind(v4), x);
  }

  /** add_elem_nftset */
  method AddElemNftset(msg: Nlmsg, ip: Option<bytes>, v4: bool, flags: u32) returns (addr: nat, ghost x: bytes)
    requires msg.Valid() && msg.Len() + 12 + |FlagsAttr(flags)| + IpLen(v4) <= msg.buf.Length
    requires (ip.Some? ==> |ip.value| == IpLen(v4))
    modifies msg.buf
    ensures msg.Valid() && msg.Len() == old(msg.Len()) + 12 + |FlagsAttr(flags)| + IpLen(v4)
    ensures addr + 4 + IpLen(v4) == msg.Len()
    ensures |x| == IpLen(v4) && (ip.Some? ==> x == ip.value) && msg.Body() == old(msg.Body()) + NftElem(x, flags)
  {
    hide Head;
    hide FlagsAttr;
    ghost var b := msg.Body();
    var elem := msg.AddNest(1);
    AddFlags(msg, flags);
    var key := msg.AddNest(1);
    addr, x := msg.AddNla(1 + NET_BYTEORDER, ip, IpLen(v4));
    Opened(b, Head(4, 1 + NESTED), FlagsAttr(flags), Head(4, 1 + NESTED), Head(4 + |x|, 1 + NET_BYTEORDER) + x);
    EndNests(msg, elem, key, b, 1 + NESTED, FlagsAttr(flags), 1 + NESTED, 1 + NET_BYTEORDER, x);
  }

  lemma Opened(b: bytes, c: bytes, d: bytes, e: bytes, f: bytes)
    ensures b + c + d + e + f == b + (c + (d + (e + f)))
    ensures d == [] ==> b + c + e + f == b + (c + (d + (e + f)))
  {
  }

  method AddFlags(msg: Nlmsg, flags: u32)
    requires msg.Valid() && msg.Len() + |FlagsAttr(flags)| <= msg.buf.Length
    modifies msg.buf
    ensures msg.Valid() && msg.Len() == old(msg.Len()) + |FlagsAttr(flags)|
    ensures msg.Body() == old(msg.Body()) + FlagsAttr(flags)
  {
    if flags != 0 {
      ghost var at, x := msg.AddNla(3, Some(PutBe32(flags)), 4);
      assert x == PutBe32(flags);
    } else {
      assert msg.Body() + [] == msg.Body();
    }
  }

  /** add_ip_nftset: the interval's end is written as a copy of the address and
      then incremented in place. */
  method AddIpNftset(msg: Nlmsg, v4: bool, ip: bytes)
    requires msg.Valid() && |ip| == IpLen(v4) && msg.Len() + EntrySize(true, v4) <= msg.buf.Length
    modifies msg.buf
    ensures msg.Valid() && msg.Len() == old(msg.Len()) + EntrySize(true, v4)
    ensures msg.Body() == old(msg.Body()) + Entry(true, v4, ip)
  {
    hide NftElem;
    hide Succ;
    hide EntrySize;
    hide FlagsAttr;
    NftEntrySize(v4);
    ghost var b := msg.Body();
    ghost var a0, x0 := AddElemNftset(msg, Some(ip), v4, 0);
    var addr, x := AddElemNftset(msg, Some(ip), v4, 1);
    ghost var front := EndWith(ip, Succ(ip));
    Assoc(b + NftElem(ip, 0), front, ip);
    IncrementLast(msg, addr + 4, |ip|, b + NftElem(ip, 0) + front, ip);
    Assoc(b + NftElem(ip, 0), front, Succ(ip));
    Assoc(b, NftElem(ip, 0), NftElem(Succ(ip), 1));
  }

  lemma NftEntrySize(v4: bool)
    ensures EntrySize(true, v4) == (12 + |FlagsAttr(0)| + IpLen(v4)) + (12 + |FlagsAttr(1)| + IpLen(v4))
  {
  }

  /** An element's last bytes are its address. */
  lemma EndWith(ip: bytes, next: bytes) returns (front: bytes)
    requires |ip| == |next| <= 16
    ensures NftElem(ip, 1) == front + ip && NftElem(next, 1) == front + next
  {
    hide Head;
    hide FlagsAttr;
    var n := |ip|;
    var a, f, b, c := Head(20 + n, 1 + NESTED), FlagsAttr(1), Head(8 + n, 1 + NESTED), Head(4 + n, 1 + NET_BYTEORDER);
    front := a + f + b + c;
    Opened(a, f, b, c, ip);
    Opened(a, f, b, c, next);
  }

  method IncrementLast(msg: Nlmsg, at: nat, n: nat, ghost front: bytes, ghost ip: bytes)
    requires msg.Valid() && HEADER_LEN <= at && at + n == msg.Len() && |ip| == n && msg.Body() == front + ip
    modifies msg.buf
    ensures msg.Valid() && msg.Len() == old(msg.Len()) && msg.Body() == front + Succ(ip)
  {
    assert msg.buf[4..at] == msg.Body()[..at - 4] == front && msg.buf[at..at + n] == msg.Body()[at - 4..] == ip;
    Increment(msg.buf, at, n);
    assert msg.buf[4..at + n] == msg.buf[4..at] + msg.buf[at..at + n];
  }

  method AddIp(msg: Nlmsg, nft: bool, v4: bool, ip: bytes)
    requires msg.Valid() && |ip| == IpLen(v4) && msg.Len() + EntrySize(nft, v4) <= msg.buf.Length
    modifies msg.buf
    ensures msg.Valid() && msg.Len() == old(msg.Len()) + EntrySize(nft, v4)
    ensures msg.Body() == old(msg.Body()) + Entry(nft, v4, ip)
  {
    hide IpsetElem;
    if nft {
      AddIpNftset(msg, v4, ip);
    } else {
      ghost var addr, x := AddElemIpset(msg, Some(ip), v4);
    }
  }

  // ---------------------------------------------------------------- message templates

  /** The set a message is about; for nftables the option is taken as already
      split into its three parts. */
  datatype SetName = Ipset(name: bytes) | Nft(family: byte, table: bytes, name: bytes) {
    /** Lengths for which the program does not exit. */
    predicate Ok() {
      if Ipset? then 1 <= |name| <= 31 else 1 <= |table| <= 255 && 1 <= |name| <= 255
    }

    function AttrsOf(add: bool): seq<Attr> {
      if Nft? then [Attr(1, table + [0]), Attr(2, name + [0])]
      else [Attr(1, [6]), Attr(2, name + [0])] + if add then [Attr(9, [0, 0, 0, 0])] else []
    }

    function HeaderOf(v4: bool, add: bool, ack: bool, pid: u32): bytes {
      if Nft? then Header(if add then CMD_NFT_NEWSETELEM else CMD_NFT_GETSETELEM, NLM_F_REQUEST, pid, family, 0)
      else Header(if add then CMD_IPSET_ADD else CMD_IPSET_TEST, if ack then NLM_F_REQUEST + NLM_F_ACK
          else NLM_F_REQUEST, pid, Family(v4), 0)
    }

    /** The attribute that holds the elements to be added. */
    function ListKind(): u16 { if Nft? then 3 + NESTED else 8 + NESTED }
  }

  /** BUFSZ_TEST */
  function TestSize(nft: bool, v4: bool): nat {
    HEADER_LEN + if nft then 260 + 260 + 4 + 12 + IpLen(v4) else 8 + 36 + 12 + IpLen(v4)
  }

  /** BUFSZ_ADD */
  function AddSize(nft: bool, v4: bool): nat {
    HEADER_LEN + (if nft then 260 + 260 + 4 else 8 + 36 + 8 + 4) + Span(IP_N, EntrySize(nft, v4))
  }

  /** A message body made of a header and these attributes. */
  ghost predicate Built(body: bytes, header: bytes, attrs: seq<Attr>) {
    |header| == HEADER_LEN - 4 && header <= body && Attrs(body, HEADER_LEN - 4) == Some(attrs)
  }

  lemma BuiltAppend(body: bytes, header: bytes, attrs: seq<Attr>, c: bytes, more: seq<Attr>)
    requires Built(body, header, attrs) && Attrs(c, 0) == Some(more)
    ensures Built(body + c, header, attrs + more)
  {
    AttrsAppend(body, c, HEADER_LEN - 4);
  }

  method InitFront(msg: Nlmsg, ghost header: bytes, kind: u16, flags: u16, pid: u32, family: byte)
    requires HEADER_LEN <= msg.buf.Length < 0x1_0000_0000 && header == Header(kind, flags, pid, family, 0)
    modifies msg.buf
    ensures msg.Valid() && msg.Len() == HEADER_LEN && Built(msg.Body(), header, [])
  {
    msg.InitHeader(kind, flags, pid, family, 0);
  }

  /** One more attribute. */
  method PutAttr(msg: Nlmsg, kind: u16, data: bytes, ghost header: bytes, ghost attrs: seq<Attr>)
    requires msg.Valid() && |data| <= 256 && msg.Len() + 4 + Align4(|data|) <= msg.buf.Length
    requires Built(msg.Body(), header, attrs)
    modifies msg.buf
    ensures msg.Valid() && msg.Len() == old(msg.Len()) + 4 + Align4(|data|)
    ensures Built(msg.Body(), header, attrs + [Attr(kind, data)])
  {
    ghost var body := msg.Body();
    ghost var at, rest := msg.AddNla(kind, Some(data), |data|);
    ghost var pad := rest[|data|..];
    AttrsOne(kind, data, pad);
    assert Head(4 + |data|, kind) + data + pad == Head(4 + |data|, kind) + rest;
    BuiltAppend(body, header, attrs, Head(4 + |data|, kind) + rest, [Attr(kind, data)]);
  }

  method PutNames(msg: Nlmsg, name: SetName, add: bool, ghost header: bytes)
    requires msg.Valid() && name.Ok() && Built(msg.Body(), header, [])
    requires msg.Len() + (if name.Nft? then 520 else if add then 52 else 44) <= msg.buf.Length
    modifies msg.buf
    ensures msg.Valid() && msg.Len() <= old(msg.Len()) + (if name.Nft? then 520 else if add then 52 else 44)
    ensures Built(msg.Body(), header, name.AttrsOf(add))
  {
    hide Built;
    hide Align4;
    if name.Nft? {
      PutNftNames(msg, name, header);
    } else {
      PutIpsetNames(msg, name, add, header);
    }
  }

  method PutIpsetNames(msg: Nlmsg, name: SetName, add: bool, ghost header: bytes)
    requires msg.Valid() && name.Ipset? && name.Ok() && Built(msg.Body(), header, [])
    requires msg.Len() + (if add then 52 else 44) <= msg.buf.Length
    modifies msg.buf
    ensures msg.Valid() && msg.Len() <= old(msg.Len()) + (if add then 52 else 44)
    ensures Built(msg.Body(), header, name.AttrsOf(add))
  {
    hide Built;
    ghost var a, b := Attr(1, [6]), Attr(2, name.name + [0]);
    PutAttr(msg, 1, [6], header, []); // IPSET_ATTR_PROTOCOL
    assert [] + [a] == [a];
    PutAttr(msg, 2, name.name + [0], header, [a]);
    assert [a] + [b] == [a, b] && [a, b] + [] == [a, b];
    if add { PutAttr(msg, 9, [0, 0, 0, 0], header, [a, b]); } // IPSET_ATTR_LINENO
  }

  method PutNftNames(msg: Nlmsg, name: SetName, ghost header: bytes)
    requires msg.Valid() && name.Nft? && name.Ok() && Built(msg.Body(), header, []) && msg.Len() + 520 <= msg.buf.Length
    modifies msg.buf
    ensures msg.Valid() && msg.Len() <= old(msg.Len()) + 520 && Built(msg.Body(), header, name.AttrsOf(false))
  {
    hide Built;
    ghost var a, b := Attr(1, name.table + [0]), Attr(2, name.name + [0]);
    PutAttr(msg, 1, name.table + [0], header, []);
    assert [] + [a] == [a];
    PutAttr(msg, 2, name.name + [0], header, [a]);
    assert [a] + [b] == [a, b];
  }

  /** init_testmsg_ipset: a request about one address, which is filled in later. */
  method InitTestIpset(msg: Nlmsg, name: SetName, v4: bool, ack: bool, pid: u32)
    returns (ghost front: bytes, ghost x: bytes)
    requires msg.buf.Length == TestSize(false, v4) && name.Ipset? && name.Ok()
    modifies msg.buf
    ensures msg.Valid() && Built(front, name.HeaderOf(v4, false, ack, pid), name.AttrsOf(false))
    ensures |x| == IpLen(v4) && msg.Body() == front + IpsetElem(v4, x)
  {
    hide IpsetElem;
    ghost var header := name.HeaderOf(v4, false, ack, pid);
    InitFront(msg, header, CMD_IPSET_TEST, if ack then NLM_F_REQUEST + NLM_F_ACK else NLM_F_REQUEST, pid, Family(v4));
    PutNames(msg, name, false, header);
    front := msg.Body();
    ghost var addr;
    addr, x := AddElemIpset(msg, None, v4);
  }

  /** init_testmsg_nftset */
  method InitTestNftset(msg: Nlmsg, name: SetName, v4: bool, pid: u32) returns (ghost front: bytes, ghost x: bytes)
    requires msg.buf.Length == TestSize(true, v4) && name.Nft? && name.Ok()
    modifies msg.buf
    ensures msg.Valid() && Built(front, name.HeaderOf(v4, false, true, pid), name.AttrsOf(false))
    ensures |x| == IpLen(v4) && msg.Body() == front + TestTail(true, v4, x)
  {
    hide Built;
    AddSizeBound(true, v4);
    InitFront(msg, name.HeaderOf(v4, false, true, pid), CMD_NFT_GETSETELEM, NLM_F_REQUEST, pid, name.family);
    PutNftNames(msg, name, name.HeaderOf(v4, false, true, pid));
    front := msg.Body();
    x := AddTestList(msg, v4);
  }

  method AddTestList(msg: Nlmsg, v4: bool) returns (ghost x: bytes)
    requires msg.Valid() && msg.Len() + 16 + IpLen(v4) <= msg.buf.Length
    modifies msg.buf
    ensures msg.Valid() && |x| == IpLen(v4) && msg.Body() == old(msg.Body()) + TestTail(true, v4, x)
  {
    hide NftElem;
    ghost var front := msg.Body();
    var elems := msg.AddNest(3);
    ghost var addr;
    addr, x := AddElemNftset(msg, None, v4, 0);
    EndList(msg, elems, front, 3 + NESTED, NftElem(x, 0));
  }

  method InitTestMsg(msg: Nlmsg, name: SetName, v4: bool, ack: bool, pid: u32)
    returns (ok: bool, ghost front: bytes, ghost x: bytes)
    requires msg.buf.Length == TestSize(name.Nft?, v4)
    modifies msg.buf
    ensures ok <==> name.Ok()
    ensures ok ==> msg.Valid() && Built(front, name.HeaderOf(v4, false, ack, pid), name.AttrsOf(false))
    ensures ok ==> |x| == IpLen(v4) && msg.Body() == front + TestTail(name.Nft?, v4, x)
  {
    hide IpsetElem;
    hide NftElem;
    front, x := [], [];
    ok := name.Ok(); // otherwise exit(1)
    if ok {
      if name.Nft? {
        front, x := InitTestNftset(msg, name, v4, pid);
      } else {
        front, x := InitTestIpset(msg, name, v4, ack, pid);
      }
    }
  }

  /** What a test request says about one address. */
  function TestTail(nft: bool, v4: bool, ip: bytes): (r: bytes)
    requires |ip| <= 16
  {
    if nft then Head(4 + |NftElem(ip, 0)|, 3 + NESTED) + NftElem(ip, 0) else IpsetElem(v4, ip)
  }

  method EndList(msg: Nlmsg, at: nat, ghost front: bytes, ghost kind: u16, ghost list: bytes)
    requires msg.Valid() && at == |front| + 4 >= HEADER_LEN && |list| < 0xfffc
    requires msg.Body() == front + Head(4, kind) + list
    modifies msg.buf
    ensures msg.Valid() && msg.Len() == old(msg.Len()) && msg.Body() == front + (Head(4 + |list|, kind) + list)
  {
    msg.EndNest(at);
    PatchHead(front, 4, 4 + |list|, kind, list);
    Assoc(front, Head(4 + |list|, kind), list);
  }

  lemma AddSizeBound(nft: bool, v4: bool)
    ensures AddSize(nft, v4) < 0x1_0000 && TestSize(nft, v4) < 0x1_0000
  {
    SpanTimes(IP_N, EntrySize(nft, v4));
  }

  method InitAddHeader(msg: Nlmsg, name: SetName, v4: bool, pid: u32)
    requires HEADER_LEN <= msg.buf.Length < 0x1_0000_0000
    modifies msg.buf
    ensures msg.Valid() && msg.Len() == HEADER_LEN && Built(msg.Body(), name.HeaderOf(v4, true, false, pid), [])
  {
    ghost var header := name.HeaderOf(v4, true, false, pid);
    if name.Nft? {
      InitFront(msg, header, CMD_NFT_NEWSETELEM, NLM_F_REQUEST, pid, name.family);
    } else {
      InitFront(msg, header, CMD_IPSET_ADD, NLM_F_REQUEST, pid, Family(v4));
    }
  }

  /** init_addmsg_*: a request without any address yet; its list stays open. */
  method InitAddMsg(msg: Nlmsg, name: SetName, v4: bool, pid: u32) returns (ok: bool, ghost front: bytes)
    requires msg.buf.Length == AddSize(name.Nft?, v4)
    modifies msg.buf
    ensures ok <==> name.Ok()
    ensures ok ==> msg.Valid() && Built(front, name.HeaderOf(v4, true, false, pid), name.AttrsOf(true))
    ensures ok ==>
              msg.Body() == front + Head(4, name.ListKind())
              && msg.Len() + Span(IP_N, EntrySize(name.Nft?, v4)) <= msg.buf.Length
  {
    hide EntrySize;
    hide Span;
    hide Built;
    AddSizeBound(name.Nft?, v4);
    front := [];
    ok := name.Ok(); // otherwise exit(1)
    if ok {
      InitAddHeader(msg, name, v4, pid);
      PutNames(msg, name, true, name.HeaderOf(v4, true, false, pid));
      front := msg.Body();
      var list := msg.AddNest(if name.Nft? then 3 else 8);
    }
  }

  // ---------------------------------------------------------------- reading them back

  /** The only attribute in `b`, if it is of this kind. */
  function Single(b: bytes, kind: u16): Option<bytes> {
    var attrs := Attrs(b, 0);
    if attrs.Some? && |attrs.value| == 1 && attrs.value[0].kind == kind then Some(attrs.value[0].payload) else None
  }

  lemma SingleRead(payload: bytes, kind: u16)
    requires 4 + |payload| < 0x1_0000 && |payload| % 4 == 0
    ensures Attrs(Head(4 + |payload|, kind) + payload, 0) == Some([Attr(kind, payload)])
    ensures Single(Head(4 + |payload|, kind) + payload, kind) == Some(payload)
  {
    AlignSame(|payload|);
    AttrsOne(kind, payload, []);
    assert Head(4 + |payload|, kind) + payload + [] == Head(4 + |payload|, kind) + payload;
  }

  lemma AlignSame(n: nat)
    requires n % 4 == 0
    ensures Align4(n) == n
  {
  }

  /** The address in the payload of a DATA attribute. */
  function ReadIpset(v4: bool, payload: bytes): Option<bytes> {
    var ip := Single(payload, 1 + NESTED);
    if ip.None? then None else Single(ip.value, AddrKind(v4))
  }

  lemma {:induction false} IpsetElemRead(v4: bool, ip: bytes)
    requires |ip| == IpLen(v4)
    ensures var attrs := Attrs(IpsetElem(v4, ip), 0);
            attrs.Some? && |attrs.value| == 1 && attrs.value[0].kind == 7 + NESTED
                && ReadIpset(v4, attrs.value[0].payload) == Some(ip)
  {
    var addr := Head(4 + |ip|, AddrKind(v4)) + ip;
    SingleRead(ip, AddrKind(v4));
    SingleRead(addr, 1 + NESTED);
    SingleRead(Head(8 + |ip|, 1 + NESTED) + addr, 7 + NESTED);
    assert [] + (Head(8 + |ip|, 1 + NESTED) + addr) == Head(8 + |ip|, 1 + NESTED) + addr;
  }

  /** The flags and the address in the payload of a LIST_ELEM attribute. */
  function ReadNft(payload: bytes): Option<(bytes, bytes)> {
    var attrs := Attrs(payload, 0);
    if attrs.None? then None
    else if |attrs.value| == 1 && attrs.value[0].kind == 1 + NESTED then
      var ip := Single(attrs.value[0].payload, 1 + NET_BYTEORDER);
      if ip.None? then None else Some(([], ip.value))
    else if |attrs.value| == 2 && attrs.value[0].kind == 3 && attrs.value[1].kind == 1 + NESTED then
      var ip := Single(attrs.value[1].payload, 1 + NET_BYTEORDER);
      if ip.None? then None else Some((attrs.value[0].payload, ip.value))
    else None
  }

  lemma {:induction false} NftElemRead(ip: bytes, flags: u32)
    requires |ip| == 4 || |ip| == 16
    ensures var attrs := Attrs(NftElem(ip, flags), 0);
            attrs.Some? && |attrs.value| == 1 && attrs.value[0].kind == 1 + NESTED
            && ReadNft(attrs.value[0].payload) == Some((if flags == 0 then [] else PutBe32(flags), ip))
  {
    hide AttrAt;
    hide PutBe32;
    hide Head;
    var value := Head(4 + |ip|, 1 + NET_BYTEORDER) + ip;
    var key := Head(8 + |ip|, 1 + NESTED) + value;
    SingleRead(ip, 1 + NET_BYTEORDER);
    SingleRead(value, 1 + NESTED);
    if flags == 0 {
      assert [] + key == key;
      SingleRead(key, 1 + NESTED);
    } else {
      SingleRead(PutBe32(flags), 3);
      AttrsAppend(FlagsAttr(flags), key, 0);
      SingleRead(FlagsAttr(flags) + key, 1 + NESTED);
    }
  }

  /** The address that one entry stands for; for nftables its interval must end
      right after its first address. */
  function ReadEntry(nft: bool, v4: bool, attrs: seq<Attr>): Option<bytes>
    requires |attrs| == if nft then 2 else 1
  {
    if !nft then if attrs[0].kind == 7 + NESTED then ReadIpset(v4, attrs[0].payload) else None
    else if attrs[0].kind != 1 + NESTED || attrs[1].kind != 1 + NESTED then None
    else
      var first, end := ReadNft(attrs[0].payload), ReadNft(attrs[1].payload);
      if first.None? || end.None? || first.value.0 != [] || end.value != (PutBe32(1), Succ(first.value.1)) then None
      else Some(first.value.1)
  }

  /** The addresses that a list of elements stands for. */
  function ReadEntries(nft: bool, v4: bool, attrs: seq<Attr>): Option<seq<bytes>> {
    if attrs == [] then Some([])
    else
      var n := |attrs| - (if nft then 2 else 1);
      if n < 0 then None
      else
        var front, last := ReadEntries(nft, v4, attrs[..n]), ReadEntry(nft, v4, attrs[n..]);
        if front.None? || last.None? then None else Some(front.value + [last.value])
  }

  /** `b` is read as one entry for `ip`. */
  ghost predicate ReadsAs(nft: bool, v4: bool, b: bytes, ip: bytes) {
    var attrs := Attrs(b, 0);
    attrs.Some? && |attrs.value| == (if nft then 2 else 1) && ReadEntry(nft, v4, attrs.value) == Some(ip)
  }

  lemma {:induction false} EntryRead(nft: bool, v4: bool, ip: bytes)
    requires |ip| == IpLen(v4)
    ensures ReadsAs(nft, v4, Entry(nft, v4, ip), ip)
  {
    if nft {
      NftElemRead(ip, 0);
      NftElemRead(Succ(ip), 1);
      AttrsAppend(NftElem(ip, 0), NftElem(Succ(ip), 1), 0);
    } else {
      IpsetElemRead(v4, ip);
    }
  }

  lemma ReadOneMore(nft: bool, v4: bool, attrs: seq<Attr>, last: seq<Attr>, front: seq<bytes>, ip: bytes)
    requires ReadEntries(nft, v4, attrs) == Some(front) && |last| == (if nft then 2 else 1)
    requires ReadEntry(nft, v4, last) == Some(ip)
    ensures ReadEntries(nft, v4, attrs + last) == Some(front + [ip])
  {
    assert (attrs + last)[..|attrs|] == attrs && (attrs + last)[|attrs|..] == last;
  }

  /** `b` is read as entries for `ips`. */
  ghost predicate AllReadAs(nft: bool, v4: bool, b: bytes, ips: seq<bytes>) {
    var attrs := Attrs(b, 0);
    attrs.Some? && ReadEntries(nft, v4, attrs.value) == Some(ips)
  }

  lemma ReadTogether(nft: bool, v4: bool, b: bytes, c: bytes, front: seq<bytes>, ip: bytes)
    requires AllReadAs(nft, v4, b, front) && ReadsAs(nft, v4, c, ip)
    ensures AllReadAs(nft, v4, b + c, front + [ip])
  {
    AttrsAppend(b, c, 0);
    ReadOneMore(nft, v4, Attrs(b, 0).value, Attrs(c, 0).value, front, ip);
  }

  lemma {:induction false} AllRead(nft: bool, v4: bool, cs: seq<bytes>, ips: seq<bytes>)
    requires |cs| == |ips| && forall i :: 0 <= i < |cs| ==> ReadsAs(nft, v4, cs[i], ips[i])
    ensures AllReadAs(nft, v4, Concat(cs), ips)
    decreases |cs|
  {
    hide AllReadAs;
    hide ReadsAs;
    if cs == [] {
      NoneRead(nft, v4);
    } else {
      var n := |cs| - 1;
      AllRead(nft, v4, cs[..n], ips[..n]);
      ReadTogether(nft, v4, Concat(cs[..n]), cs[n], ips[..n], ips[n]);
      assert ips[..n] + [ips[n]] == ips;
    }
  }

  lemma NoneRead(nft: bool, v4: bool)
    ensures AllReadAs(nft, v4, [], [])
  {
    assert Attrs([], 0) == Some([]);
  }

  /** The elements of a message say which addresses they were made from. */
  lemma EntriesRead(nft: bool, v4: bool, ips: seq<bytes>)
    requires Addrs(v4, ips)
    ensures AllReadAs(nft, v4, Entries(nft, v4, ips), ips)
  {
    forall i | 0 <= i < |ips| ensures ReadsAs(nft, v4, EntryList(nft, v4, ips)[i], ips[i]) {
      EntryRead(nft, v4, ips[i]);
    }
    AllRead(nft, v4, EntryList(nft, v4, ips), ips);
  }
}
