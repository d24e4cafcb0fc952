/** Netlink messages under construction in a fixed buffer: a length field, a
    header, then a list of attributes, each padded to four bytes. */
module Netlink {
  import opened Bytes

  const NLA_HDRLEN := 4
  const HEADER_LEN := 20 // sizeof(struct header): nlmsghdr and nfgenmsg
  const NESTED: u16 := 0x8000 // NLA_F_NESTED
  const NET_BYTEORDER: u16 := 0x4000 // NLA_F_NET_BYTEORDER

  /** NLMSG_ALIGN and NLA_ALIGN */
  function Align4(n: nat): (r: nat)
    ensures n <= r < n + 4 && r % 4 == 0
  {
    (n + 3) / 4 * 4
  }

  /** An attribute header; `len` counts the header itself. */
  function Head(len: u16, kind: u16): (s: bytes)
    ensures |s| == NLA_HDRLEN && Le16(s, 0) == len && Le16(s, 2) == kind
  {
    PutLe16(len) + PutLe16(kind)
  }

  /** `b` with the two-byte length at `i` replaced. */
  function Patch(b: bytes, i: nat, v: u16): (r: bytes)
    requires i + 2 <= |b|
    ensures |r| == |b| && forall k :: 0 <= k < |b| && k != i && k != i + 1 ==> r[k] == b[k]
  {
    b[..i] + PutLe16(v) + b[i + 2..]
  }

  lemma {:induction false} PatchIs(r: bytes, b: bytes, i: nat, v: u16)
    requires |r| == |b| && i + 2 <= |b| && r[i..i + 2] == PutLe16(v)
    requires forall k :: 0 <= k < |b| && k != i && k != i + 1 ==> r[k] == b[k]
    ensures r == Patch(b, i, v)
  {
    assert r == r[..i] + r[i..i + 2] + r[i + 2..];
    assert r[..i] == b[..i] && r[i + 2..] == b[i + 2..];
  }

  /** Two bytes of a stretch behind the length field have been overwritten. */
  lemma {:induction false} Overwritten(buf: array<byte>, b: bytes, i: nat, v: u16)
    requires i + 2 <= |b| && 4 + |b| <= buf.Length && buf[4 + i..4 + i + 2] == PutLe16(v)
    requires forall k :: 0 <= k < |b| && k != i && k != i + 1 ==> buf[4 + k] == b[k]
    ensures buf[4..4 + |b|] == Patch(b, i, v)
  {
    var r, w := buf[4..4 + |b|], buf[4 + i..4 + i + 2];
    assert w == [buf[4 + i], buf[4 + i + 1]] && r[i..i + 2] == [r[i], r[i + 1]];
    PatchIs(r, b, i, v);
  }

  lemma PatchHead(a: bytes, old1: u16, new1: u16, kind: u16, c: bytes)
    ensures Patch(a + Head(old1, kind) + c, |a|, new1) == a + Head(new1, kind) + c
  {
    var b := a + Head(old1, kind) + c;
    assert b[..|a|] == a && b[|a| + 2..] == PutLe16(kind) + c;
  }

  lemma PatchEnd(a: bytes, old1: u16, new1: u16, kind: u16)
    ensures Patch(a + Head(old1, kind), |a|, new1) == a + Head(new1, kind)
  {
    hide Head;
    hide Patch;
    PatchHead(a, old1, new1, kind, []);
    assert a + Head(old1, kind) + [] == a + Head(old1, kind) && a + Head(new1, kind) + [] == a + Head(new1, kind);
  }

  // ---------------------------------------------------------------- reading

  datatype Attr = Attr(kind: u16, payload: bytes)

  /** A well-formed attribute stands at `i`. */
  predicate HasAttr(b: bytes, i: nat) {
    i + NLA_HDRLEN <= |b| && NLA_HDRLEN <= Le16(b, i) && i + Align4(Le16(b, i)) <= |b|
  }

  function AttrAt(b: bytes, i: nat): Attr
    requires HasAttr(b, i)
  {
    Attr(Le16(b, i + 2), b[i + NLA_HDRLEN..i + Le16(b, i)])
  }

  /** The attributes in `b` from `i` to its end, if they are well formed. */
  function Attrs(b: bytes, i: nat): Option<seq<Attr>>
    requires i <= |b|
    decreases |b| - i
  {
    if i == |b| then Some([])
    else if !HasAttr(b, i) then None
    else
      var rest := Attrs(b, i + Align4(Le16(b, i)));
      if rest.None? then None else Some([AttrAt(b, i)] + rest.value)
  }

  /** An attribute is read alike wherever it stands. */
  lemma AttrShift(a: bytes, b: bytes, c: bytes, i: nat)
    requires HasAttr(b, i)
    ensures HasAttr(a + b + c, |a| + i) && AttrAt(a + b + c, |a| + i) == AttrAt(b, i)
    ensures Le16(a + b + c, |a| + i) == Le16(b, i)
  {
    var n := Le16(b, i);
    assert Le16(a + b + c, |a| + i) == n && Le16(a + b + c, |a| + i + 2) == Le16(b, i + 2);
    assert (a + b + c)[|a| + i + NLA_HDRLEN..|a| + i + n] == b[i + NLA_HDRLEN..i + n];
  }

  /** So are attributes up to the end. */
  lemma {:induction false} AttrsShift(a: bytes, b: bytes, i: nat)
    requires i <= |b| && Attrs(b, i).Some?
    ensures Attrs(a + b, |a| + i) == Attrs(b, i)
    decreases |b| - i
  {
    if i == |b| {
    } else {
      AttrShift(a, b, [], i);
      assert a + b + [] == a + b;
      AttrsShift(a, b, i + Align4(Le16(b, i)));
    }
  }

  /** Attributes put behind others are read after them. */
  lemma {:induction false} AttrsAppend(b: bytes, c: bytes, i: nat)
    requires i <= |b| && Attrs(b, i).Some? && Attrs(c, 0).Some?
    ensures Attrs(b + c, i) == Some(Attrs(b, i).value + Attrs(c, 0).value)
    decreases |b| - i
  {
    hide AttrAt;
    if i == |b| {
      AttrsShift(b, c, 0);
      assert Attrs(b, i).value + Attrs(c, 0).value == Attrs(c, 0).value;
    } else {
      AttrShift([], b, c, i);
      assert [] + b + c == b + c;
      AttrsAppend(b, c, i + Align4(Le16(b, i)));
      var rest := Attrs(b, i + Align4(Le16(b, i))).value;
      assert [AttrAt(b, i)] + rest + Attrs(c, 0).value == [AttrAt(b, i)] + (rest + Attrs(c, 0).value);
    }
  }

  /** One attribute with its padding. */
  lemma AttrsOne(kind: u16, payload: bytes, pad: bytes)
    requires NLA_HDRLEN + |payload| < 0x1_0000 && |payload| + |pad| == Align4(|payload|)
    ensures Attrs(Head(NLA_HDRLEN + |payload|, kind) + payload + pad, 0) == Some([Attr(kind, payload)])
  {
    var n := NLA_HDRLEN + |payload|;
    AlignHead(|payload|);
    OneRead(Head(n, kind), payload, pad);
    OnlyOne(Head(n, kind) + payload + pad);
  }

  lemma OnlyOne(b: bytes)
    requires HasAttr(b, 0) && Align4(Le16(b, 0)) == |b|
    ensures Attrs(b, 0) == Some([AttrAt(b, 0)])
  {
    assert Attrs(b, |b|) == Some([]);
    assert [AttrAt(b, 0)] + [] == [AttrAt(b, 0)];
  }

  lemma AlignHead(n: nat)
    ensures Align4(NLA_HDRLEN + n) == NLA_HDRLEN + Align4(n)
  {
  }

  lemma OneRead(head: bytes, payload: bytes, pad: bytes)
    requires |head| == NLA_HDRLEN && Le16(head, 0) == NLA_HDRLEN + |payload|
    requires NLA_HDRLEN + |payload| + |pad| == Align4(NLA_HDRLEN + |payload|)
    ensures HasAttr(head + payload + pad, 0) && AttrAt(head + payload + pad, 0) == Attr(Le16(head, 2), payload)
    ensures Le16(head + payload + pad, 0) == Le16(head, 0)
  {
    HeadRead(head, payload + pad);
    assert head + payload + pad == head + (payload + pad);
  }

  lemma HeadRead(head: bytes, rest: bytes)
    requires |head| == NLA_HDRLEN
    ensures Le16(head + rest, 0) == Le16(head, 0) && Le16(head + rest, 2) == Le16(head, 2)
  {
  }

  /** A whole message: its length field is its size, and it has these attributes. */
  ghost predicate Message(m: bytes, header: bytes, attrs: seq<Attr>) {
    |m| >= HEADER_LEN && Le32(m, 0) == |m| && m[4..HEADER_LEN] == header && Attrs(m, HEADER_LEN) == Some(attrs)
  }

  // ---------------------------------------------------------------- writing

  /** What init_header puts behind the length field. */
  function Header(kind: u16, flags: u16, pid: u32, family: byte, resid: u16): (h: bytes)
    ensures |h| == HEADER_LEN - 4
  {
    PutLe16(kind) + PutLe16(flags) + [0, 0, 0, 0] + PutLe32(pid) + [family, 0] + PutBe16(resid)
  }

  lemma Around(buf: array<byte>, len: nat, at: nat, n: nat)
    requires 4 <= at && at + n <= len <= buf.Length
    ensures buf[4..len][..at - 4] == buf[4..at] && buf[4..len][at - 4 + n..] == buf[at + n..len]
  {
  }

  lemma Joined(buf: array<byte>, b: bytes, c: bytes, d: bytes)
    requires 4 + |b| + |c| + |d| <= buf.Length && buf[4..4 + |b|] == b
    requires buf[4 + |b|..4 + |b| + |c|] == c && buf[4 + |b| + |c|..4 + |b| + |c| + |d|] == d
    ensures buf[4..4 + |b| + |c| + |d|] == b + c + d
  {
  }

  class Nlmsg {
    const buf: array<byte>

    ghost predicate Valid()
      reads buf
    {
      HEADER_LEN <= buf.Length < 0x1_0000_0000 && HEADER_LEN <= Len() <= buf.Length && Len() % 4 == 0
    }

    /** nlmsg_len */
    function Len(): nat
      requires 4 <= buf.Length
      reads buf
    {
      Le32([buf[0], buf[1], buf[2], buf[3]], 0)
    }

    /** What follows the length field. */
    ghost function Body(): bytes
      requires Valid()
      reads buf
    {
      buf[4..Len()]
    }

    /** malloc: the contents are arbitrary. */
    constructor (size: nat, contents: nat -> byte)
      requires HEADER_LEN <= size < 0x1_0000_0000
      ensures buf.Length == size && fresh(buf)
    {
      buf := new byte[size](i requires i >= 0 => contents(i));
    }

    /** memcpy into the buffer */
    method Put(at: nat, s: bytes)
      requires at + |s| <= buf.Length
      modifies buf
      ensures buf[at..at + |s|] == s
      ensures forall i :: 0 <= i < buf.Length && !(at <= i < at + |s|) ==> buf[i] == old(buf[i])
    {
      for k := 0 to |s|
        invariant forall i :: 0 <= i < k ==> buf[at + i] == s[i]
        invariant forall i :: 0 <= i < buf.Length && !(at <= i < at + k) ==> buf[i] == old(buf[i])
      {
        buf[at + k] := s[k];
      }
    }

    method SetLen(n: nat)
      requires HEADER_LEN <= n <= buf.Length < 0x1_0000_0000 && n % 4 == 0
      modifies buf
      ensures Valid() && Len() == n && buf[..4] == PutLe32(n)
      ensures forall i :: 4 <= i < buf.Length ==> buf[i] == old(buf[i])
    {
      Put(0, PutLe32(n));
      assert buf[0] == buf[0..4][0] && buf[1] == buf[0..4][1] && buf[2] == buf[0..4][2] && buf[3] == buf[0..4][3];
    }

    method InitHeader(kind: u16, flags: u16, pid: u32, family: byte, resid: u16)
      requires HEADER_LEN <= buf.Length < 0x1_0000_0000
      modifies buf
      ensures Valid() && Len() == HEADER_LEN && Body() == Header(kind, flags, pid, family, resid)
    {
      Put(4, Header(kind, flags, pid, family, resid));
      ghost var b := buf[4..HEADER_LEN];
      SetLen(HEADER_LEN);
      assert buf[4..HEADER_LEN] == b;
    }

    /** memcpy behind the header */
    method PutBody(at: nat, s: bytes)
      requires Valid() && HEADER_LEN <= at && at + |s| <= Len()
      modifies buf
      ensures Valid() && Len() == old(Len())
      ensures Body() == old(Body())[..at - 4] + s + old(Body())[at - 4 + |s|..]
    {
      hide Le32;
      ghost var len, before, after := Len(), buf[4..at], buf[at + |s|..Len()];
      Around(buf, len, at, |s|);
      Put(at, s);
      assert |before| == at - 4 && buf[4..at] == before && buf[at + |s|..len] == after;
      assert Len() == len;
      Joined(buf, before, s, after);
    }

    /** nlmsg_add_nla: a null `data` leaves what the buffer held. */
    method AddNla(kind: u16, data: Option<bytes>, n: nat) returns (at: nat, ghost rest: bytes)
      requires Valid() && Len() + NLA_HDRLEN + Align4(n) <= buf.Length && NLA_HDRLEN + n < 0x1_0000
      requires data.Some? ==> |data.value| == n
      modifies buf
      ensures Valid() && at == old(Len()) && Len() == at + NLA_HDRLEN + Align4(n) && |rest| == Align4(n)
      ensures Body() == old(Body()) + (Head(NLA_HDRLEN + n, kind) + rest) && (data.Some? ==> data.value <= rest)
    {
      hide Head;
      hide Align4;
      at := AddData(NLA_HDRLEN + Align4(n));
      var payload := if data.Some? then data.value else [];
      ghost var pad := PutLast(at, Head(NLA_HDRLEN + n, kind), payload);
      rest := payload + pad;
    }

    /** An attribute's header and payload go to the end of the message; what is left of its space keeps its contents. */
    method PutLast(at: nat, head: bytes, payload: bytes) returns (ghost pad: bytes)
      requires Valid() && HEADER_LEN <= at && at + |head| + |payload| <= Len()
      modifies buf
      ensures Valid() && Len() == old(Len()) && Body() == old(Body())[..at - 4] + (head + (payload + pad))
    {
      hide Le32;
      PutBody(at, head + payload);
      pad := old(Body())[at - 4 + |head + payload|..];
      Assoc(head, payload, pad);
      Assoc(old(Body())[..at - 4], head + payload, pad);
    }

    /** nlmsg_add_data, without data */
    method AddData(n: nat) returns (at: nat)
      requires Valid() && n % 4 == 0 && Len() + n <= buf.Length
      modifies buf
      ensures Valid() && at == old(Len()) && Len() == at + n && Body()[..at - 4] == old(Body())
    {
      at := Len();
      SetLen(at + n);
      assert buf[4..at] == old(Body()) && Body()[..at - 4] == buf[4..at];
    }

    /** nlmsg_add_nest_nla */
    method AddNest(kind: u16) returns (at: nat)
      requires Valid() && Len() + NLA_HDRLEN <= buf.Length && kind < NESTED
      modifies buf
      ensures Valid() && at == old(Len()) && Len() == at + NLA_HDRLEN
      ensures Body() == old(Body()) + Head(NLA_HDRLEN, kind + NESTED)
    {
      ghost var rest;
      at, rest := AddNla(kind + NESTED, None, 0);
    }

    /** nlmsg_end_nest_nla */
    method EndNest(at: nat)
      requires Valid() && HEADER_LEN <= at && at + NLA_HDRLEN <= Len() < at + 0x1_0000
      modifies buf
      ensures Valid() && Len() == old(Len()) && Body() == Patch(old(Body()), at - 4, Len() - at)
    {
      PutBody(at, PutLe16(Len() - at));
    }
  }
}
