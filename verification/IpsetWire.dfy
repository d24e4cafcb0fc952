/** The set messages byte by byte, as the kernel's headers lay them out: what the
    templates and elements amount to, in numbers. */
module IpsetWire {
  import opened Bytes
  import opened Netlink
  import opened IpsetMsg

  // ---------------------------------------------------------------- headers

  /** nlmsghdr and nfgenmsg: length, type, flags, sequence number, port; family, version, resource. */
  function Front(len: nat, kind: nat, flags: nat, pid: nat, family: byte, resource: nat): (h: bytes)
    ensures |h| == 20
  {
    Little(len, 4) + Little(kind, 2) + Little(flags, 2) + [0, 0, 0, 0] + Little(pid, 4) + [family, 0] + Big(resource, 2)
  }

  lemma FrontIs(len: u32, kind: u16, flags: u16, pid: u32, family: byte, resource: u16)
    ensures PutLe32(len) + Header(kind, flags, pid, family, resource) == Front(len, kind, flags, pid, family, resource)
  {
    hide PutLe16;
    hide PutLe32;
    hide PutBe16;
    hide Little;
    hide Big;
    Digits32(len);
    Digits16(kind);
    Digits16(flags);
    Digits32(pid);
    Digits16(resource);
  }

  /** A message begins with these fields, and its length is its size. */
  ghost predicate Begins(m: bytes, kind: nat, flags: nat, pid: nat, family: byte, resource: nat) {
    Front(|m|, kind, flags, pid, family, resource) <= m
  }

  lemma {:induction false} MessageBegins(m: bytes, kind: u16, flags: u16, pid: u32, family: byte, resource: u16,
                                         attrs: seq<Attr>)
    requires Message(m, Header(kind, flags, pid, family, resource), attrs)
    ensures |m| >= 20 && Begins(m, kind, flags, pid, family, resource) && Attrs(m, 20) == Some(attrs)
  {
    hide Header;
    hide Attrs;
    hide Le32;
    hide PutLe32;
    var n := [m[0], m[1], m[2], m[3]];
    LengthField(m);
    FrontIs(|m|, kind, flags, pid, family, resource);
    assert m[..20] == n + m[4..20];
  }

  lemma LengthField(m: bytes)
    requires |m| >= 4 && Le32(m, 0) == |m|
    ensures PutLe32(|m|) == [m[0], m[1], m[2], m[3]]
  {
    hide PutLe32;
    Le32Digits([m[0], m[1], m[2], m[3]]);
  }

  /** A type and its attributes' lengths and kinds, in numbers. */
  lemma HeadIs(len: u16, kind: u16)
    ensures Head(len, kind) == Little(len, 2) + Little(kind, 2)
  {
    hide PutLe16;
    hide Little;
    Digits16(len);
    Digits16(kind);
  }

  lemma {:induction false} SmallHead(len: nat, kind: u16)
    requires len < 256
    ensures Head(len, kind) == [len, 0, kind % 256, kind / 256]
  {
  }

  // ---------------------------------------------------------------- attributes

  /** `b` is a list of these attributes: length, type, payload, and what pads it to four bytes. */
  ghost predicate Lists(b: bytes, attrs: seq<Attr>)
    decreases |attrs|
  {
    if attrs == [] then b == []
    else
      var n := 4 + |attrs[0].payload|;
      && (n + 3) / 4 * 4 <= |b| && b[..n] == Little(n, 2) + Little(attrs[0].kind, 2) + attrs[0].payload
      && Lists(b[(n + 3) / 4 * 4..], attrs[1..])
  }

  lemma {:induction false} Listed(b: bytes, i: nat)
    requires i <= |b| && Attrs(b, i).Some?
    ensures Lists(b[i..], Attrs(b, i).value)
    decreases |b| - i
  {
    hide Le16;
    hide Little;
    if i == |b| {
    } else {
      var n := Le16(b, i);
      Listed(b, i + Align4(n));
      AttrBytes(b, i);
      assert b[i..][..n] == b[i..i + n] && b[i..][Align4(n)..] == b[i + Align4(n)..];
      assert Attrs(b, i).value[1..] == Attrs(b, i + Align4(n)).value;
    }
  }

  lemma {:induction false} AttrBytes(b: bytes, i: nat)
    requires HasAttr(b, i)
    ensures var a := AttrAt(b, i);
            i + 4 + |a.payload| <= |b| && Le16(b, i) == 4 + |a.payload|
            && b[i..i + 4 + |a.payload|] == Little(4 + |a.payload|, 2) + Little(a.kind, 2) + a.payload
  {
    hide Le16;
    hide PutLe16;
    hide Little;
    Digits16(Le16(b, i));
    Digits16(Le16(b, i + 2));
    Le16Digits(b, i);
    Le16Digits(b, i + 2);
  }

  // ---------------------------------------------------------------- addresses and elements

  /** An ipset element: DATA (7) { IP (1) { IPADDR_IPV4 (1) or IPADDR_IPV6 (2) } }. */
  function RawIpset(v4: bool, ip: bytes): bytes {
    if v4 then [16, 0, 7, 128, 12, 0, 1, 128, 8, 0, 1, 64] + ip
    else [28, 0, 7, 128, 24, 0, 1, 128, 20, 0, 2, 64] + ip
  }

  /** The start of an nftables interval: LIST_ELEM (1) { KEY (1) { VALUE (1) } }. */
  function RawStart(ip: bytes): bytes
    requires |ip| <= 16
  {
    [12 + |ip|, 0, 1, 128, 8 + |ip|, 0, 1, 128, 4 + |ip|, 0, 1, 64] + ip
  }

  /** Its end: LIST_ELEM (1) { FLAGS (3) INTERVAL_END, KEY (1) { VALUE (1) } }, with the next address. */
  function RawEnd(ip: bytes): bytes
    requires |ip| <= 16
  {
    [20 + |ip|, 0, 1, 128, 8, 0, 3, 0, 0, 0, 0, 1, 8 + |ip|, 0, 1, 128, 4 + |ip|, 0, 1, 64]
    + Big((Value(ip) + 1) % Range(|ip|), |ip|)
  }

  function RawEntry(nft: bool, v4: bool, ip: bytes): bytes
    requires |ip| <= 16
  {
    if nft then RawStart(ip) + RawEnd(ip) else RawIpset(v4, ip)
  }

  /** What an add request's list holds. */
  function RawEntries(nft: bool, v4: bool, ips: seq<bytes>): bytes
    requires forall i :: 0 <= i < |ips| ==> |ips[i]| <= 16
  {
    if ips == [] then []
    else RawEntries(nft, v4, ips[..|ips| - 1]) + RawEntry(nft, v4, ips[|ips| - 1])
  }

  /** What a test request ends with; for nftables a list (3) of one element. */
  function RawTail(nft: bool, v4: bool, ip: bytes): bytes
    requires |ip| <= 16
  {
    if nft then [16 + |ip|, 0, 3, 128] + RawStart(ip) else RawIpset(v4, ip)
  }

  /** An address is its number, highest byte first. */
  lemma {:induction false} BigValue(ip: bytes)
    ensures Big(Value(ip), |ip|) == ip
  {
    if ip == [] {
    } else {
      var front := ip[..|ip| - 1];
      BigValue(front);
      assert Value(ip) / 256 == Value(front) && Value(ip) % 256 == ip[|ip| - 1] as int;
    }
  }

  lemma {:induction false} SuccBig(ip: bytes)
    ensures Succ(ip) == Big((Value(ip) + 1) % Range(|ip|), |ip|)
  {
    hide Succ;
    hide Value;
    hide Range;
    hide Big;
    SuccValue(ip);
    ValueBound(ip);
    BigValue(Succ(ip));
    Wraps(Value(ip) + 1, Range(|ip|));
  }

  lemma Wraps(x: nat, r: nat)
    requires 0 < x <= r
    ensures x % r == if x == r then 0 else x
  {
  }

  lemma {:induction false} IpsetElemIs(v4: bool, ip: bytes)
    requires |ip| == IpLen(v4)
    ensures IpsetElem(v4, ip) == RawIpset(v4, ip)
  {
    hide Head;
    SmallHead(12 + |ip|, 7 + NESTED);
    SmallHead(8 + |ip|, 1 + NESTED);
    SmallHead(4 + |ip|, AddrKind(v4));
  }

  lemma {:induction false} StartIs(ip: bytes)
    requires |ip| <= 16
    ensures NftElem(ip, 0) == RawStart(ip)
  {
    hide Head;
    SmallHead(12 + |ip|, 1 + NESTED);
    SmallHead(8 + |ip|, 1 + NESTED);
    SmallHead(4 + |ip|, 1 + NET_BYTEORDER);
  }

  lemma {:induction false} EndIs(ip: bytes)
    requires |ip| <= 16
    ensures NftElem(Succ(ip), 1) == RawEnd(ip)
  {
    hide Head;
    hide Succ;
    hide PutBe32;
    hide Big;
    hide Value;
    hide Range;
    hide Be32;
    SuccBig(ip);
    OneFlag();
    SmallHead(20 + |ip|, 1 + NESTED);
    SmallHead(8, 3);
    SmallHead(8 + |ip|, 1 + NESTED);
    SmallHead(4 + |ip|, 1 + NET_BYTEORDER);
    var f, s := FlagsAttr(1), Succ(ip);
    assert f == [8, 0, 3, 0, 0, 0, 0, 1];
    Joined4([20 + |ip|, 0, 1, 128], f, [8 + |ip|, 0, 1, 128], [4 + |ip|, 0, 1, 64], s);
  }

  lemma Joined4(a: bytes, f: bytes, b: bytes, c: bytes, d: bytes)
    requires |a| == |b| == |c| == 4 && |f| == 8
    ensures a + (f + (b + (c + d)))
            == [a[0], a[1], a[2], a[3], f[0], f[1], f[2], f[3], f[4], f[5], f[6], f[7],
                b[0], b[1], b[2], b[3], c[0], c[1], c[2], c[3]] + d
  {
  }

  lemma OneFlag()
    ensures PutBe32(1) == [0, 0, 0, 1]
  {
    hide PutBe32;
    hide PutBe16;
    Be32Digits(0, 0, 0, 1);
    assert Be32(0, 0, 0, 1) == 1;
  }

  lemma {:induction false} EntryIs(nft: bool, v4: bool, ip: bytes)
    requires |ip| == IpLen(v4)
    ensures Entry(nft, v4, ip) == RawEntry(nft, v4, ip)
  {
    hide NftElem;
    hide IpsetElem;
    hide RawStart;
    hide RawEnd;
    hide RawIpset;
    if nft {
      StartIs(ip);
      EndIs(ip);
    } else {
      IpsetElemIs(v4, ip);
    }
  }

  /** The list of an add request, byte by byte. */
  lemma {:induction false} EntriesAre(nft: bool, v4: bool, ips: seq<bytes>)
    requires Addrs(v4, ips)
    ensures Entries(nft, v4, ips) == RawEntries(nft, v4, ips)
    decreases |ips|
  {
    hide Entry;
    hide RawEntry;
    if ips == [] {
    } else {
      var n := |ips| - 1;
      EntriesAre(nft, v4, ips[..n]);
      EntryIs(nft, v4, ips[n]);
      var cs := EntryList(nft, v4, ips);
      assert cs[..n] == EntryList(nft, v4, ips[..n]);
    }
  }

  /** The end of a test request, byte by byte. */
  lemma {:induction false} TailIs(nft: bool, v4: bool, ip: bytes)
    requires |ip| == IpLen(v4)
    ensures TestTail(nft, v4, ip) == RawTail(nft, v4, ip)
  {
    hide NftElem;
    hide IpsetElem;
    hide Head;
    if nft {
      StartIs(ip);
      SmallHead(16 + |ip|, 3 + NESTED);
    } else {
      IpsetElemIs(v4, ip);
    }
  }

  // ---------------------------------------------------------------- templates

  /** The family a message names: for ipset that of the addresses, for nftables the set's. */
  function FamilyOf(set0: SetName, v4: bool): byte {
    if set0.Nft? then set0.family else if v4 then 2 else 10
  }

  /** The attributes in front of the elements: PROTOCOL (1), SETNAME (2) and, when
      adding, LINENO (9) for ipset; TABLE (1) and SET (2) for nftables. */
  function Names(set0: SetName, add: bool): seq<Attr> {
    if set0.Nft? then [Attr(1, set0.table + [0]), Attr(2, set0.name + [0])]
    else if add then [Attr(1, [6]), Attr(2, set0.name + [0]), Attr(9, [0, 0, 0, 0])]
    else [Attr(1, [6]), Attr(2, set0.name + [0])]
  }

  /** An add request: IPSET_CMD_ADD (0x0609) or NFT_MSG_NEWSETELEM (0x0a0c), a
      request without acknowledgement, whose list is that of these addresses. */
  ghost predicate IsAdd(m: bytes, set0: SetName, v4: bool, pid: u32, ips: seq<bytes>)
    requires Addrs(v4, ips)
  {
    && Begins(m, if set0.Nft? then 0x0a0c else 0x0609, 1, pid, FamilyOf(set0, v4), 0)
    && Lists(m[20..], Names(set0, true) + [Attr(if set0.Nft? then 0x8003 else 0x8008, RawEntries(set0.Nft?, v4, ips))])
  }

  /** A test request: IPSET_CMD_TEST (0x060b), to be acknowledged, or
      NFT_MSG_GETSETELEM (0x0a0d), not to be; it ends with the address. */
  ghost predicate IsTest(m: bytes, set0: SetName, v4: bool, pid: u32, ip: bytes)
    requires |ip| == IpLen(v4)
  {
    var tail := RawTail(set0.Nft?, v4, ip);
    && Begins(m, if set0.Nft? then 0x0a0d else 0x060b, if set0.Nft? then 1 else 5, pid, FamilyOf(set0, v4), 0)
    && |m| >= 20 + |tail| && Lists(m[20..|m| - |tail|], Names(set0, false)) && m[|m| - |tail|..] == tail
  }

  lemma {:induction false} AddMessage(m: bytes, set0: SetName, v4: bool, pid: u32, ips: seq<bytes>)
    requires Addrs(v4, ips)
    requires Message(m, set0.HeaderOf(v4, true, false, pid),
                     set0.AttrsOf(true) + [Attr(set0.ListKind(), Entries(set0.Nft?, v4, ips))])
    ensures IsAdd(m, set0, v4, pid, ips)
  {
    hide Header;
    hide Message;
    hide Entries;
    hide RawEntries;
    hide Begins;
    hide Attrs;
    hide Lists;
    var attrs := set0.AttrsOf(true) + [Attr(set0.ListKind(), Entries(set0.Nft?, v4, ips))];
    EntriesAre(set0.Nft?, v4, ips);
    MessageBegins(m, if set0.Nft? then 0x0a0c else 0x0609, 1, pid, FamilyOf(set0, v4), 0, attrs);
    Listed(m, 20);
    assert set0.AttrsOf(true) == Names(set0, true);
  }

  lemma {:induction false} TestMessage(m: bytes, front: bytes, set0: SetName, v4: bool, pid: u32, ip: bytes)
    requires |ip| == IpLen(v4) && Built(front, set0.HeaderOf(v4, false, true, pid), set0.AttrsOf(false))
    requires var tail := TestTail(set0.Nft?, v4, ip);
             4 + |front| + |tail| < 0x1_0000_0000 && m == PutLe32(4 + |front| + |tail|) + (front + tail)
    ensures IsTest(m, set0, v4, pid, ip)
  {
    hide Header;
    hide TestTail;
    hide RawTail;
    hide Front;
    hide PutLe32;
    hide Attrs;
    hide Lists;
    var tail := TestTail(set0.Nft?, v4, ip);
    TailIs(set0.Nft?, v4, ip);
    FrontIs(|m|, if set0.Nft? then 0x0a0d else 0x060b, if set0.Nft? then 1 else 5, pid, FamilyOf(set0, v4), 0);
    Listed(front, 16);
    assert front[..16] == set0.HeaderOf(v4, false, true, pid);
    assert m[20..|m| - |tail|] == front[16..] && m[..20] == PutLe32(|m|) + front[..16];
    assert set0.AttrsOf(false) == Names(set0, false);
  }

  /** NFNL_MSG_BATCH_BEGIN (16) or NFNL_MSG_BATCH_END (17), for NFNL_SUBSYS_NFTABLES (10). */
  function RawBatch(kind: byte, pid: u32): bytes {
    [20, 0, 0, 0] + [kind, 0] + [1, 0] + [0, 0, 0, 0] + Little(pid, 4) + [0, 0, 0, 10]
  }

  lemma {:induction false} BatchIs(kind: byte, pid: u32)
    ensures PutLe32(20) + Header(kind as int, 1, pid, 0, 10) == RawBatch(kind, pid)
  {
    hide PutLe32;
    hide Be16;
    Le32Digits([20, 0, 0, 0]);
    assert Le32([20, 0, 0, 0], 0) == 20;
    Digits32(pid);
    assert PutLe16(kind as int) == [kind, 0] && PutLe16(1) == [1, 0] && PutBe16(10) == [0, 10];
  }
}
