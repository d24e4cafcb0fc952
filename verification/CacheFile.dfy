/** The dump format of the cache, loading it, and the tool that deletes entries from it. */
module CacheFile {
  import opened Bytes
  import opened Labels
  import opened DnsName
  import Msg = DnsMsg
  import Cache = CacheMsgs

  const HEADER_LEN := 24 // sizeof(Header), with one byte of padding at its end
  const DNS_HEADER_LEN := 12
  const MSG_MAXSIZE := 65535

  type i32 = x: int | -0x8000_0000 <= x < 0x8000_0000
  type i64 = x: int | -0x8000_0000_0000_0000 <= x < 0x8000_0000_0000_0000

  // ---------------------------------------------------------------- the format

  function PutI32(v: i32): (s: bytes)
    ensures |s| == 4 && GetI32(s, 0) == v
  {
    PutLe32(ToU32(v))
  }

  function GetI32(s: bytes, i: nat): i32
    requires i + 4 <= |s|
  {
    ToI32(Le32(s, i))
  }

  function PutI64(v: i64): (s: bytes)
    ensures |s| == 8 && GetI64(s, 0) == v
  {
    PutLe32(v % 0x1_0000_0000) + PutI32(v / 0x1_0000_0000)
  }

  function GetI64(s: bytes, i: nat): i64
    requires i + 8 <= |s|
  {
    Le32(s, i) as int + GetI32(s, i + 4) as int * 0x1_0000_0000
  }

  /** What a dump keeps of an entry. */
  datatype Entry = Entry(updateTime: i64, hashv: u32, ttl: i32, ttlR: i32, qnamelen: byte, msg: bytes, addedIp: bool)

  /** An entry in a file; the value of the padding byte is nobody's business. */
  datatype Dumped = Dumped(entry: Entry, pad: byte)

  function Header(e: Entry, pad: byte): (h: bytes)
    requires |e.msg| <= MSG_MAXSIZE
    ensures |h| == HEADER_LEN
  {
    PutI64(e.updateTime) + PutLe32(e.hashv) + PutI32(e.ttl) + PutI32(e.ttlR) + PutLe16(|e.msg|) + [e.qnamelen, pad]
  }

  /** dump */
  function Dump(d: Dumped): bytes
    requires |d.entry.msg| <= MSG_MAXSIZE
  {
    Header(d.entry, d.pad) + d.entry.msg
  }

  ghost predicate Sized(ds: seq<Dumped>) { forall i :: 0 <= i < |ds| ==> 1 <= |ds[i].entry.msg| <= MSG_MAXSIZE }

  function DumpAll(ds: seq<Dumped>): bytes
    requires Sized(ds)
  {
    if ds == [] then [] else Dump(ds[0]) + DumpAll(ds[1..])
  }

  /** The fields of a header. */
  function ReadHeader(h: bytes, msg: bytes): Entry
    requires HEADER_LEN <= |h|
  {
    Entry(GetI64(h, 0), Le32(h, 8), GetI32(h, 12), GetI32(h, 16), h[22], msg, false)
  }

  /** load: the first entry and the data behind it. */
  function LoadOne(data: bytes): (r: Option<(Entry, bytes)>)
    ensures r.Some? ==> |r.value.1| < |data|
  {
    if |data| == 0 || |data| <= HEADER_LEN || |data| < HEADER_LEN + Le16(data, 20) then None
    else
      var n := Le16(data, 20) as int;
      Some((ReadHeader(data, data[HEADER_LEN..HEADER_LEN + n]), data[HEADER_LEN + n..]))
  }

  function LoadAll(data: bytes): seq<Entry>
    decreases |data|
  {
    var r := LoadOne(data);
    if r.None? then [] else [r.value.0] + LoadAll(r.value.1)
  }

  // ---------------------------------------------------------------- round trip

  lemma {:induction false} HeaderRead(e: Entry, pad: byte, rest: bytes)
    requires |e.msg| <= MSG_MAXSIZE
    ensures var h := Header(e, pad) + rest;
            && GetI64(h, 0) == e.updateTime && Le32(h, 8) == e.hashv && GetI32(h, 12) == e.ttl
            && GetI32(h, 16) == e.ttlR
            && Le16(h, 20) == |e.msg| && h[22] == e.qnamelen
  {
    var a, b, c, d, f := PutI64(e.updateTime), PutLe32(e.hashv), PutI32(e.ttl), PutI32(e.ttlR), PutLe16(|e.msg|);
    var h := Header(e, pad) + rest;
    hide Header;
    hide PutI64;
    hide PutLe32;
    hide PutI32;
    hide PutLe16;
    assert h[..8] == a && h[8..12] == b && h[12..16] == c && h[16..20] == d
        && h[20..22] == f by { HeaderParts(e, pad, rest); }
    Read4(h, 0, a, 0);
    Read4(h, 4, a, 4);
    Read4(h, 8, b, 0);
    Read4(h, 12, c, 0);
    Read4(h, 16, d, 0);
    assert h[20] == f[0] && h[21] == f[1];
    HeaderParts(e, pad, rest);
  }

  lemma {:induction false} HeaderParts(e: Entry, pad: byte, rest: bytes)
    requires |e.msg| <= MSG_MAXSIZE
    ensures var h := Header(e, pad) + rest;
            && h[..8] == PutI64(e.updateTime) && h[8..12] == PutLe32(e.hashv) && h[12..16] == PutI32(e.ttl)
            && h[16..20] == PutI32(e.ttlR)
            && h[20..22] == PutLe16(|e.msg|) && h[22] == e.qnamelen
  {
    hide PutI64;
    hide PutLe32;
    hide PutI32;
    hide PutLe16;
  }

  lemma Read4(h: bytes, i: nat, p: bytes, j: nat)
    requires i + 4 <= |h| && j + 4 <= |p| && h[i..i + 4] == p[j..j + 4]
    ensures Le32(h, i) == Le32(p, j)
  {
    var s, t := h[i..i + 4], p[j..j + 4];
    assert h[i] == s[0] == t[0] && h[i + 1] == s[1] == t[1] && h[i + 2] == s[2] == t[2] && h[i + 3] == s[3] == t[3];
  }

  /** One entry is read back, whatever follows it. */
  lemma LoadDump(d: Dumped, rest: bytes)
    requires 1 <= |d.entry.msg| <= MSG_MAXSIZE
    ensures LoadOne(Dump(d) + rest) == Some((d.entry.(addedIp := false), rest))
  {
    hide Header;
    var e := d.entry;
    var data := Dump(d) + rest;
    assert data == Header(e, d.pad) + (e.msg + rest);
    HeaderRead(e, d.pad, e.msg + rest);
    assert data[HEADER_LEN..HEADER_LEN + |e.msg|] == e.msg && data[HEADER_LEN + |e.msg|..] == rest;
  }

  /** What loading gives back. */
  function Loaded(ds: seq<Dumped>): seq<Entry> {
    if ds == [] then [] else [ds[0].entry.(addedIp := false)] + Loaded(ds[1..])
  }

  /** Loading the dumps of any entries with non-empty messages gives them back in order. */
  lemma {:induction false} LoadDumpAll(ds: seq<Dumped>)
    requires Sized(ds)
    ensures LoadAll(DumpAll(ds)) == Loaded(ds)
    decreases |ds|
  {
    if ds != [] {
      hide Dump;
      hide LoadOne;
      LoadDump(ds[0], DumpAll(ds[1..]));
      LoadDumpAll(ds[1..]);
    } else {
      assert LoadOne([]).None?;
    }
  }

  /** The loop of cache.load; the limit on the number of entries is not reached. */
  method Load(data: bytes) returns (es: seq<Entry>)
    ensures es == LoadAll(data)
  {
    es := [];
    var rest := data;
    assert [] + LoadAll(data) == LoadAll(data);
    while true
      invariant LoadAll(data) == es + LoadAll(rest)
      decreases |rest|
    {
      if |rest| == 0 || |rest| <= HEADER_LEN { break; }
      var n := Le16(rest, 20) as int;
      if |rest| < HEADER_LEN + n { break; }
      var e := ReadHeader(rest, rest[HEADER_LEN..HEADER_LEN + n]);
      assert es + ([e] + LoadAll(rest[HEADER_LEN + n..])) == es + [e] + LoadAll(rest[HEADER_LEN + n..]);
      es, rest := es + [e], rest[HEADER_LEN + n..];
    }
    assert LoadAll(rest) == [] && es + [] == es;
  }

  // ---------------------------------------------------------------- in plain terms

  /** A header byte by byte, all numbers lowest byte first and signed ones in two's
      complement: update_time (8 bytes), hashv, ttl and ttl_r (4 each), msg_len (2),
      qnamelen, and the padding. */
  function RawHeader(e: Entry, pad: byte): bytes
    requires |e.msg| <= 65535
  {
    Little(Unsigned(e.updateTime, 0x1_0000_0000_0000_0000), 8) + Little(e.hashv, 4)
    + Little(Unsigned(e.ttl, 0x1_0000_0000), 4) + Little(Unsigned(e.ttlR, 0x1_0000_0000), 4)
    + Little(|e.msg|, 2) + [e.qnamelen, pad]
  }

  function Unsigned(v: int, modulus: nat): nat
    requires v + modulus >= 0
  {
    if v < 0 then v + modulus else v
  }

  lemma {:induction false} PutI32Is(v: i32)
    ensures PutI32(v) == Little(Unsigned(v, 0x1_0000_0000), 4)
  {
    hide PutLe32;
    hide Little;
    hide GetI32;
    hide ToU32;
    hide Unsigned;
    UnsignedIs(v);
    Digits32(ToU32(v));
  }

  lemma UnsignedIs(v: i32)
    ensures ToU32(v) == Unsigned(v, 0x1_0000_0000)
  {
  }

  /** Eight bytes are two times four. */
  lemma {:induction false} Eight(low: u32, high: u32)
    ensures Little(low as int + high as int * 0x1_0000_0000, 8) == Little(low, 4) + Little(high, 4)
  {
    hide Little;
    var v := low as int + high as int * 0x1_0000_0000;
    FourMore(v, 4);
    assert v / 0x1_0000_0000 == high;
    LittleLow(v, low, high);
  }

  lemma {:induction false} FourMore(v: nat, n: nat)
    ensures Little(v, 4 + n) == Little(v, 4) + Little(v / 0x1_0000_0000, n)
  {
    hide Little;
    FourDigits(v, n);
    FourDigits(v, 0);
  }

  lemma {:induction false} FourDigits(v: nat, n: nat)
    ensures Little(v, 4 + n)
            == [v % 256, v / 256 % 256, v / 0x1_0000 % 256, v / 0x100_0000 % 256] + Little(v / 0x1_0000_0000, n)
  {
    hide Little;
    var a, b, c := v / 256, v / 0x1_0000, v / 0x100_0000;
    assert a / 256 == b && b / 256 == c && c / 256 == v / 0x1_0000_0000;
    OneDigit(v, 3 + n);
    OneDigit(a, 2 + n);
    OneDigit(b, 1 + n);
    OneDigit(c, n);
  }

  lemma {:induction false} OneDigit(v: nat, n: nat)
    ensures Little(v, n + 1) == [v % 256] + Little(v / 256, n)
  {
  }

  lemma {:induction false} LittleLow(v: nat, low: u32, h: nat)
    requires v == low as int + h * 0x1_0000_0000
    ensures Little(v, 4) == Little(low, 4)
  {
    LowByte(v, low, h * 0x100_0000, 3);
    LowByte(v / 256, low / 256, h * 0x1_0000, 2);
    LowByte(v / 256 / 256, low / 256 / 256, h * 256, 1);
    LowByte(v / 256 / 256 / 256, low / 256 / 256 / 256, h, 0);
  }

  lemma {:induction false} LowByte(v: nat, low: nat, h: nat, n: nat)
    requires v == low + 256 * h
    ensures v / 256 == low / 256 + h
    ensures Little(v, n + 1) == [low % 256] + Little(v / 256, n)
    ensures Little(low, n + 1) == [low % 256] + Little(low / 256, n)
    ensures Little(v, 0) == Little(low, 0) && Little(v / 256, 0) == Little(low / 256, 0)
  {
  }

  lemma UnsignedParts(v: i64)
    ensures Unsigned(v, 0x1_0000_0000_0000_0000)
            == v % 0x1_0000_0000 + Unsigned(v / 0x1_0000_0000, 0x1_0000_0000) * 0x1_0000_0000
  {
  }

  lemma {:induction false} PutI64Is(v: i64)
    ensures PutI64(v) == Little(Unsigned(v, 0x1_0000_0000_0000_0000), 8)
  {
    hide PutLe32;
    hide PutI32;
    hide Little;
    hide GetI64;
    hide GetI32;
    hide Le32;
    hide ToU32;
    hide Unsigned;
    var low, high := v % 0x1_0000_0000, v / 0x1_0000_0000;
    UnsignedParts(v);
    UnsignedIs(high);
    Digits32(low);
    PutI32Is(high);
    Eight(low, Unsigned(high, 0x1_0000_0000));
  }

  lemma {:induction false} HeaderIs(e: Entry, pad: byte)
    requires |e.msg| <= MSG_MAXSIZE
    ensures Header(e, pad) == RawHeader(e, pad)
  {
    hide PutI64;
    hide PutI32;
    hide PutLe32;
    hide PutLe16;
    hide Little;
    hide Unsigned;
    PutI64Is(e.updateTime);
    PutI32Is(e.ttl);
    PutI32Is(e.ttlR);
    Digits32(e.hashv);
    Digits16(|e.msg|);
  }

  lemma {:induction false} Le32At(h: bytes, i: nat)
    requires i + 4 <= |h|
    ensures PutLe32(Le32(h, i)) == h[i..i + 4]
  {
    hide PutLe32;
    hide Le32;
    Le32Digits(h[i..i + 4]);
    Read4(h, i, h[i..i + 4], 0);
  }

  lemma {:induction false} I32At(h: bytes, i: nat)
    requires i + 4 <= |h|
    ensures PutI32(GetI32(h, i)) == h[i..i + 4]
  {
    hide PutLe32;
    hide Le32;
    Le32At(h, i);
    SignedBack(Le32(h, i));
  }

  lemma SignedBack(x: u32)
    ensures ToU32(ToI32(x)) == x
  {
  }

  lemma {:induction false} I64At(h: bytes, i: nat)
    requires i + 8 <= |h|
    ensures PutI64(GetI64(h, i)) == h[i..i + 8]
  {
    hide PutLe32;
    hide PutI32;
    hide Le32;
    hide GetI32;
    Le32At(h, i);
    I32At(h, i + 4);
    HighLow(Le32(h, i), GetI32(h, i + 4));
    assert h[i..i + 8] == h[i..i + 4] + h[i + 4..i + 8];
  }

  lemma HighLow(low: u32, high: i32)
    ensures (low as int + high as int * 0x1_0000_0000) % 0x1_0000_0000 == low
    ensures (low as int + high as int * 0x1_0000_0000) / 0x1_0000_0000 == high
  {
  }

  lemma {:induction false} HeaderBack(data: bytes, msg: bytes)
    requires HEADER_LEN <= |data| && |msg| == Le16(data, 20) as int
    ensures Header(ReadHeader(data, msg), data[23]) == data[..24]
  {
    hide PutLe32;
    hide PutLe16;
    hide PutI32;
    hide PutI64;
    hide Le32;
    hide Le16;
    hide GetI32;
    hide GetI64;
    I64At(data, 0);
    Le32At(data, 8);
    I32At(data, 12);
    I32At(data, 16);
    Le16Digits(data, 20);
  }

  /** An entry is read exactly when its header, its message and then the rest stand
      there, and something follows the header. */
  lemma {:induction false} LoadWhen(data: bytes, e: Entry, rest: bytes)
    ensures LoadOne(data) == Some((e, rest)) <==>
            && |data| > 24 && !e.addedIp && |e.msg| <= 65535
            && exists pad :: data == RawHeader(e, pad) + e.msg + rest
  {
    hide RawHeader;
    hide Header;
    hide ReadHeader;
    hide Le16;
    if LoadOne(data) == Some((e, rest)) {
      var n := Le16(data, 20) as int;
      FieldsRead(data, data[24..24 + n]);
      HeaderBack(data, e.msg);
      HeaderIs(e, data[23]);
      assert data == data[..24] + e.msg + rest;
    }
    if |data| > 24 && !e.addedIp && |e.msg| <= 65535 && exists pad :: data == RawHeader(e, pad) + e.msg + rest {
      var pad :| data == RawHeader(e, pad) + e.msg + rest;
      HeaderIs(e, pad);
      HeaderRead(e, pad, e.msg + rest);
      assert data == Header(e, pad) + (e.msg + rest);
      FieldsRead(data, e.msg);
      assert data[24..24 + |e.msg|] == e.msg && data[24 + |e.msg|..] == rest;
    }
  }

  /** A file that ends in the middle of an entry, or of its header, gives the entries before. */
  lemma {:induction false} LoadDumpTail(ds: seq<Dumped>, tail: bytes)
    requires Sized(ds) && (|tail| <= 24 || |tail| < 24 + tail[20] as int + tail[21] as int * 256)
    ensures LoadAll(DumpAll(ds) + tail) == Loaded(ds)
    decreases |ds|
  {
    hide Dump;
    if ds == [] {
      assert [] + tail == tail && LoadOne(tail).None?;
    } else {
      hide LoadOne;
      LoadDump(ds[0], DumpAll(ds[1..]) + tail);
      Assoc(Dump(ds[0]), DumpAll(ds[1..]), tail);
      LoadDumpTail(ds[1..], tail);
    }
  }

  lemma FieldsRead(h: bytes, msg: bytes)
    requires HEADER_LEN <= |h|
    ensures ReadHeader(h, msg) == Entry(GetI64(h, 0), Le32(h, 8), GetI32(h, 12), GetI32(h, 16), h[22], msg, false)
  {
  }

  // ---------------------------------------------------------------- deleting

  /** The question's name as it stands in the entry's message. */
  function WireName(e: Entry): bytes
    requires DNS_HEADER_LEN + e.qnamelen as int <= |e.msg|
  {
    e.msg[DNS_HEADER_LEN..DNS_HEADER_LEN + e.qnamelen as int]
  }

  /** The message holds a name of the stated length, as every checked reply does:
      it is counted up to its first zero byte. */
  ghost predicate Framed(e: Entry) {
    DNS_HEADER_LEN + e.qnamelen as int <= |e.msg| && Msg.QnameLen(e.msg) == Some(e.qnamelen as int)
  }

  ghost predicate AllFramed(ds: seq<Dumped>) { forall i :: 0 <= i < |ds| ==> Framed(ds[i].entry) }

  /** The name also has a text form, which is checked only for replies whose names are logged. */
  ghost predicate Named(e: Entry) { Framed(e) && Msg.NameOk(WireName(e)) }

  ghost predicate AllNamed(ds: seq<Dumped>) { forall i :: 0 <= i < |ds| ==> Named(ds[i].entry) }

  /** The text name; the root domain's is a dot. */
  function TextName(e: Entry): bytes
    requires DNS_HEADER_LEN + e.qnamelen as int <= |e.msg| && Msg.NameOk(WireName(e))
  {
    if e.qnamelen <= 1 then [DOT] else Join(Parse(WireName(e)[..e.qnamelen as int - 1], 0).value)
  }

  ghost predicate Doomed(e: Entry, suffixes: seq<bytes>)
    requires Named(e)
  {
    exists i :: 0 <= i < |suffixes| && IsDomainSuffix(suffixes[i], TextName(e))
  }

  /** The entries that the tool keeps. */
  ghost function Kept(ds: seq<Dumped>, suffixes: seq<bytes>): (r: seq<Dumped>)
    requires AllNamed(ds)
  {
    if ds == [] then []
    else
      var n := |ds| - 1;
      Kept(ds[..n], suffixes) + if Doomed(ds[n].entry, suffixes) then [] else [ds[n]]
  }

  /** The question's name in the message, which follows twelve bytes, and its text: labels
      with dots (46) between them, or a dot for the root domain. */
  ghost predicate NameReads(e: Entry, text: bytes) {
    12 + e.qnamelen as int <= |e.msg|
    && (var w := e.msg[12..12 + e.qnamelen as int];
        || (w == [0] && text == [46])
        || exists ls :: ls != [] && Short(ls) && w == LabelBytes(ls) + [0] && text == Join(ls))
  }

  lemma {:induction false} TextNameReads(e: Entry)
    requires Named(e)
    ensures NameReads(e, TextName(e))
  {
    hide LabelBytes;
    hide Short;
    hide Join;
    FramedEnd(e);
    var w, q := WireName(e), e.qnamelen as int;
    if q == 1 {
      assert w == [0];
    } else {
      var s := w[..q - 1];
      var ls := Parse(s, 0).value;
      ParseWhen(s, ls);
      assert w == LabelBytes(ls) + [0];
    }
  }

  /** The tool keeps, in order, exactly the entries whose names none of the suffixes ends. */
  lemma {:induction false} KeptWhen(ds: seq<Dumped>, suffixes: seq<bytes>) returns (idx: seq<nat>)
    requires AllNamed(ds)
    ensures Picks(idx, Kept(ds, suffixes), ds)
    ensures Marks(idx, Spared(ds, suffixes))
  {
    hide Marks;
    hide Named;
    hide Doomed;
    hide TextName;
    hide Ends;
    hide Picks;
    if ds == [] {
      idx := [];
      NonePicked(suffixes);
    } else {
      var n := |ds| - 1;
      var front := KeptWhen(ds[..n], suffixes);
      assert ds == ds[..n] + [ds[n]];
      assert Spared(ds, suffixes)[..n] == Spared(ds[..n], suffixes);
      PicksMore(front, Kept(ds[..n], suffixes), ds[..n], ds[n], !Doomed(ds[n].entry, suffixes));
      MarksMore(front, Spared(ds, suffixes));
      DoomedWhen(ds[n].entry, suffixes);
      idx := if Doomed(ds[n].entry, suffixes) then front else front + [n];
      assert Kept(ds[..n], suffixes) + [] == Kept(ds[..n], suffixes);
    }
  }

  /** Which entries' names none of the suffixes ends. */
  ghost function Spared(ds: seq<Dumped>, suffixes: seq<bytes>): (r: seq<bool>)
    requires AllNamed(ds)
    ensures |r| == |ds|
    ensures forall i :: 0 <= i < |ds| ==>
              (r[i] <==> forall k :: 0 <= k < |suffixes| ==> !Ends(suffixes[k], TextName(ds[i].entry)))
  {
    seq(|ds|, i requires 0 <= i < |ds| && Named(ds[i].entry) =>
      forall k :: 0 <= k < |suffixes| ==> !Ends(suffixes[k], TextName(ds[i].entry)))
  }

  lemma NonePicked(suffixes: seq<bytes>)
    ensures Picks([], Kept([], suffixes), []) && Marks([], [])
  {
  }

  lemma DoomedWhen(e: Entry, suffixes: seq<bytes>)
    requires Named(e)
    ensures Doomed(e, suffixes) <==> exists k :: 0 <= k < |suffixes| && Ends(suffixes[k], TextName(e))
  {
    hide Ends;
    hide IsDomainSuffix;
    forall k | 0 <= k < |suffixes|
      ensures IsDomainSuffix(suffixes[k], TextName(e)) <==> Ends(suffixes[k], TextName(e))
    {
      SuffixWhen(suffixes[k], TextName(e));
    }
  }

  lemma {:induction false} DumpSnoc(ds: seq<Dumped>, d: Dumped)
    requires Sized(ds) && 1 <= |d.entry.msg| <= MSG_MAXSIZE
    ensures Sized(ds + [d]) && DumpAll(ds + [d]) == DumpAll(ds) + Dump(d)
    decreases |ds|
  {
    hide Dump;
    var all := ds + [d];
    if ds == [] {
      assert all[1..] == [] && DumpAll(all[1..]) == [];
      assert Dump(d) + [] == [] + Dump(d);
    } else {
      DumpSnoc(ds[1..], d);
      assert all[1..] == ds[1..] + [d] && all[0] == ds[0];
      Assoc(Dump(ds[0]), DumpAll(ds[1..]), Dump(d));
    }
  }

  // ---------------------------------------------------------------- names without zero bytes

  lemma {:induction false} ParseNoZero(s: bytes, i: nat)
    requires i <= |s| && Parse(s, i).Some? && 0 !in s
    ensures forall l <- Parse(s, i).value :: 0 !in l
    decreases |s| - i
  {
    if i == |s| {
    } else {
      ParseNoZero(s, i + 1 + s[i] as int);
    }
  }

  lemma {:induction false} JoinNoZero(ls: seq<bytes>)
    requires |ls| >= 1 && forall l <- ls :: 0 !in l
    ensures 0 !in Join(ls)
  {
    if |ls| == 1 {
    } else {
      JoinNoZero(ls[1..]);
    }
  }

  lemma {:induction false} NoZeroBefore(m: bytes, i: nat)
    requires i <= |m| && Msg.FirstZero(m, i).Some?
    ensures forall k :: i <= k < Msg.FirstZero(m, i).value ==> m[k] != 0
    decreases |m| - i
  {
    if m[i] == 0 {
    } else {
      NoZeroBefore(m, i + 1);
    }
  }

  lemma FramedEnd(e: Entry)
    requires Framed(e)
    ensures e.qnamelen >= 1 && WireName(e)[e.qnamelen as int - 1] == 0
  {
  }

  lemma TextNoZero(e: Entry)
    requires Named(e)
    ensures e.qnamelen >= 1 && WireName(e)[e.qnamelen as int - 1] == 0 && 0 !in TextName(e)
  {
    NoZeroBefore(e.msg, DNS_HEADER_LEN);
    if e.qnamelen > 1 {
      var s := WireName(e)[..e.qnamelen as int - 1];
      ParseNoZero(s, 0);
      assert s != [];
      JoinNoZero(Parse(s, 0).value);
    }
  }

  // ---------------------------------------------------------------- the tool

  /** The text as a C string: up to the first zero byte, if there is one. */
  method CString(name: array<byte>) returns (s: Option<bytes>)
    ensures 0 in name[..] ==> s.Some?
    ensures s.Some? ==> |s.value| < name.Length && name[|s.value|] == 0 && s.value == name[..|s.value|] && 0 !in s.value
  {
    for n := 0 to name.Length
      invariant 0 !in name[..n]
    {
      if name[n] == 0 { return Some(name[..n]); }
      assert name[..n + 1] == name[..n] + [name[n]];
    }
    assert name[..] == name[..name.Length];
    return None;
  }

  /** One of the suffixes is the name, or ends it behind a dot. */
  method Matches(name: bytes, suffixes: seq<bytes>) returns (hit: bool)
    ensures hit <==> exists i :: 0 <= i < |suffixes| && IsDomainSuffix(suffixes[i], name)
  {
    for i := 0 to |suffixes|
      invariant forall j :: 0 <= j < i ==> !IsDomainSuffix(suffixes[j], name)
    {
      var s := suffixes[i];
      assert |name| == |s| && name[|name| - |s|..] == s ==> s == name;
      if |name| >= |s| && name[|name| - |s|..] == s && (|name| == |s| || name[|name| - |s| - 1] == DOT) {
        return true;
      }
    }
    return false;
  }

  /** The dump of `d` stands at `pos`, and `rest` behind it. */
  ghost predicate Stands(file: bytes, pos: nat, d: Dumped, rest: bytes) {
    pos <= |file| && 1 <= |d.entry.msg| <= MSG_MAXSIZE && Framed(d.entry) && file[pos..] == Dump(d) + rest
  }

  /** next, when the file has not ended: a header and its message are read, and the
      name is turned into text. None is an exit with an error. */
  method Next(file: bytes, pos: nat, msg: array<byte>, name: array<byte>, ghost d: Dumped, ghost rest: bytes)
    returns (n: Option<nat>, text: bytes)
    requires pos + HEADER_LEN <= |file| && msg.Length == MSG_MAXSIZE && name.Length == NAME_MAXLEN + 1 && msg != name
    modifies msg, name
    ensures n.Some? ==> HEADER_LEN <= n.value && pos + n.value <= |file|
    ensures Stands(file, pos, d, rest) ==> (n.Some? <==> Named(d.entry))
    ensures Stands(file, pos, d, rest) && n.Some? ==>
              n == Some(HEADER_LEN + |d.entry.msg|) && text == TextName(d.entry)
  {
    hide TextName;
    hide Dump;
    hide WireName;
    hide Framed;
    hide Msg.NameOk;
    ghost var e, good := d.entry, Stands(file, pos, d, rest);
    if good { DumpBytes(file, pos, d, rest); }
    var len, q := Le16(file, pos + 20) as int, file[pos + 22] as int;
    if len == 0 || pos + HEADER_LEN + len > |file| { return None, []; }
    ReadMsg(file, pos + HEADER_LEN, len, msg);
    if good { NameIn(e, msg, len); }
    if q < NAME_WIRE_MINLEN { return None, []; } // assert()
    var ok := DecodeName(name, msg[DNS_HEADER_LEN..DNS_HEADER_LEN + q], q);
    if !ok { return None, []; }
    if good { TextEnds(name, e); }
    var s := CString(name);
    if s.None? { return None, []; }
    if good { TextIs(name, e, s.value); }
    return Some(HEADER_LEN + len), s.value;
  }

  method ReadMsg(file: bytes, at: nat, len: nat, msg: array<byte>)
    requires at + len <= |file| && len <= msg.Length
    modifies msg
    ensures msg[..len] == file[at..at + len]
  {
    forall k | 0 <= k < len { msg[k] := file[at + k]; }
  }

  /** The name in the reused buffer is the entry's. */
  lemma NameIn(e: Entry, msg: array<byte>, len: nat)
    requires Framed(e) && |e.msg| == len <= msg.Length && msg[..len] == e.msg
    ensures 1 <= e.qnamelen as int <= NAME_WIRE_MAXLEN && DNS_HEADER_LEN + e.qnamelen as int <= msg.Length
    ensures DNS_HEADER_LEN + e.qnamelen as int <= |e.msg|
    ensures Named(e) <==> Msg.NameOk(WireName(e))
    ensures Msg.NameOk(WireName(e)) <==> e.qnamelen <= 1 || Parse(WireName(e)[..e.qnamelen as int - 1], 0).Some?
    ensures msg[DNS_HEADER_LEN..DNS_HEADER_LEN + e.qnamelen as int] == WireName(e)
    ensures |WireName(e)| == e.qnamelen as int && WireName(e)[e.qnamelen as int - 1] == 0
  {
    hide Parse;
    FramedEnd(e);
    var end := DNS_HEADER_LEN + e.qnamelen as int;
    assert msg[DNS_HEADER_LEN..end] == msg[..len][DNS_HEADER_LEN..end];
  }

  lemma {:induction false} DumpBytes(file: bytes, pos: nat, d: Dumped, rest: bytes)
    requires pos <= |file| && |d.entry.msg| <= MSG_MAXSIZE && file[pos..] == Dump(d) + rest
    ensures pos + HEADER_LEN + |d.entry.msg| <= |file| && Le16(file, pos + 20) == |d.entry.msg|
    ensures file[pos + 22] == d.entry.qnamelen
    ensures file[pos + HEADER_LEN..pos + HEADER_LEN + |d.entry.msg|] == d.entry.msg
    ensures file[pos..pos + HEADER_LEN + |d.entry.msg|] == Dump(d) && file[pos + HEADER_LEN + |d.entry.msg|..] == rest
  {
    hide Header;
    var e := d.entry;
    var s := file[pos..];
    HeaderRead(e, d.pad, e.msg + rest);
    assert s == Header(e, d.pad) + (e.msg + rest);
    assert forall k :: 0 <= k < |s| ==> s[k] == file[pos + k];
    assert s[20] == file[pos + 20] && s[21] == file[pos + 21] && s[22] == file[pos + 22];
  }

  /** What decode_name leaves is the text name and a zero byte. */
  lemma TextEnds(name: array<byte>, e: Entry)
    requires name.Length == NAME_MAXLEN + 1 && Named(e) && Msg.NamedAs(name, WireName(e))
    ensures |TextName(e)| < name.Length && name[..|TextName(e)|] == TextName(e) && name[|TextName(e)|] == 0
    ensures 0 in name[..]
  {
    TextNoZero(e);
    if e.qnamelen <= 1 {
      assert name[..2][0] == DOT && name[..2][1] == 0;
      assert name[..1] == [DOT] && name[..][1] == 0;
    } else {
      assert name[..][e.qnamelen as int - 2] == 0;
    }
  }

  lemma TextIs(name: array<byte>, e: Entry, s: bytes)
    requires Named(e) && |TextName(e)| < name.Length && name[..|TextName(e)|] == TextName(e) && name[|TextName(e)|] == 0
    requires |s| < name.Length && name[|s|] == 0 && s == name[..|s|] && 0 !in s
    ensures s == TextName(e)
  {
    TextNoZero(e);
    NotShorter(name, s, TextName(e));
    NotShorter(name, TextName(e), s);
  }

  lemma NotShorter(name: array<byte>, s: bytes, t: bytes)
    requires |s| < name.Length && |t| < name.Length && name[|s|] == 0 && t == name[..|t|] && 0 !in t
    ensures |t| <= |s|
  {
    assert forall k :: 0 <= k < |t| ==> t[k] in t && name[k] == t[k];
  }

  /** One turn of the tool's loop. */
  method CopyOne(file: bytes, pos: nat, suffixes: seq<bytes>, msg: array<byte>, name: array<byte>, tmp: bytes,
                 ghost d: Dumped, ghost rest: bytes)
    returns (ok: bool, pos': nat, tmp': bytes)
    requires pos + HEADER_LEN <= |file| && msg.Length == MSG_MAXSIZE && name.Length == NAME_MAXLEN + 1 && msg != name
    modifies msg, name
    ensures ok ==> pos < pos' <= |file|
    ensures Stands(file, pos, d, rest) ==> (ok <==> Named(d.entry))
    ensures Stands(file, pos, d, rest) && ok ==>
              file[pos'..] == rest && tmp' == if Doomed(d.entry, suffixes) then tmp else tmp + Dump(d)
  {
    hide Dump;
    hide Named;
    hide IsDomainSuffix;
    hide TextName;
    var n, text := Next(file, pos, msg, name, d, rest);
    if n.None? { return false, pos, tmp; }
    if Stands(file, pos, d, rest) { DumpBytes(file, pos, d, rest); }
    var hit := Matches(text, suffixes);
    return true, pos + n.value, if hit then tmp else tmp + file[pos..pos + n.value];
  }

  lemma NextDump(ds: seq<Dumped>, i: nat, n: nat, suffixes: seq<bytes>)
    requires Sized(ds) && i <= |ds| && AllNamed(ds[..i]) && n == |DumpAll(ds[i..])|
    ensures n >= HEADER_LEN ==> i < |ds| && DumpAll(ds[i..]) == Dump(ds[i]) + DumpAll(ds[i + 1..])
    ensures n < HEADER_LEN ==> i == |ds|
    ensures i < |ds| && Named(ds[i].entry) ==>
              && AllNamed(ds[..i + 1])
              && Kept(ds[..i + 1], suffixes)
                 == Kept(ds[..i], suffixes) + if Doomed(ds[i].entry, suffixes) then [] else [ds[i]]
  {
    hide Doomed;
    hide Header;
    hide Named;
    if i < |ds| {
      assert ds[i..][1..] == ds[i + 1..] && ds[i..][0] == ds[i] && ds[..i + 1][..i] == ds[..i];
    }
  }

  /** `i` entries have been read and the kept ones copied. */
  ghost predicate Copied(file: bytes, pos: nat, tmp: bytes, suffixes: seq<bytes>, ds: seq<Dumped>, i: nat) {
    && Sized(ds) && AllFramed(ds) && i <= |ds| && AllNamed(ds[..i])
    && pos <= |file| && file[pos..] == DumpAll(ds[i..])
    && Sized(Kept(ds[..i], suffixes)) && tmp == DumpAll(Kept(ds[..i], suffixes))
  }

  lemma {:induction false} NextStands(file: bytes, pos: nat, tmp: bytes, suffixes: seq<bytes>, ds: seq<Dumped>, i: nat)
    requires Copied(file, pos, tmp, suffixes, ds, i)
    ensures pos + HEADER_LEN <= |file| ==> i < |ds| && Stands(file, pos, ds[i], DumpAll(ds[i + 1..]))
    ensures pos + HEADER_LEN > |file| ==> i == |ds|
  {
    NextDump(ds, i, |file| - pos, suffixes);
  }

  lemma CopiedOne(file: bytes, pos: nat, tmp: bytes, suffixes: seq<bytes>, ds: seq<Dumped>, i: nat, pos': nat,
                  tmp': bytes)
    requires Copied(file, pos, tmp, suffixes, ds, i) && i < |ds| && Named(ds[i].entry)
    requires pos' <= |file| && file[pos'..] == DumpAll(ds[i + 1..])
    requires tmp' == if Doomed(ds[i].entry, suffixes) then tmp else tmp + Dump(ds[i])
    ensures Copied(file, pos', tmp', suffixes, ds, i + 1)
  {
    hide Dump;
    hide DumpAll;
    hide Doomed;
    hide Kept;
    hide Named;
    hide Framed;
    NextDump(ds, i, |file| - pos, suffixes);
    DumpSnoc(Kept(ds[..i], suffixes), ds[i]);
    assert Kept(ds[..i], suffixes) + [] == Kept(ds[..i], suffixes);
  }

  /** delete: of a file of entries whose names all have a text form, the kept ones
      replace it, byte for byte. None is an exit with an error, which leaves the
      file as it was; it is taken when one of the names has none. */
  method Delete(file: bytes, suffixes: seq<bytes>, ghost ds: seq<Dumped>) returns (out: Option<bytes>)
    ensures Sized(ds) && AllFramed(ds) && file == DumpAll(ds) ==> (out.None? <==> !AllNamed(ds))
    ensures Sized(ds) && AllNamed(ds) && file == DumpAll(ds) ==>
              Sized(Kept(ds, suffixes)) && out == Some(DumpAll(Kept(ds, suffixes)))
  {
    hide Copied;
    hide Stands;
    hide DumpAll;
    hide Kept;
    hide Doomed;
    hide Framed;
    var msg := new byte[MSG_MAXSIZE];
    var name := new byte[NAME_MAXLEN + 1];
    var tmp: bytes := [];
    var pos := 0;
    ghost var i := 0;
    ghost var good := Sized(ds) && AllFramed(ds) && file == DumpAll(ds);
    if good { BeginCopy(file, suffixes, ds); }
    while pos + HEADER_LEN <= |file|
      invariant pos <= |file| && (good ==> Copied(file, pos, tmp, suffixes, ds, i))
      decreases |file| - pos
    {
      if good { NextStands(file, pos, tmp, suffixes, ds, i); }
      ghost var d, rest := NoEntry(), [];
      if good { d, rest := ds[i], DumpAll(ds[i + 1..]); }
      var ok, pos', tmp' := CopyOne(file, pos, suffixes, msg, name, tmp, d, rest);
      if !ok { return None; }
      if good { CopiedOne(file, pos, tmp, suffixes, ds, i, pos', tmp'); }
      pos, tmp, i := pos', tmp', i + 1;
    }
    if good { EndCopy(file, pos, tmp, suffixes, ds, i); }
    out := Some(tmp);
  }

  ghost function NoEntry(): Dumped { Dumped(Entry(0, 0, 0, 0, 0, [], false), 0) }

  lemma BeginCopy(file: bytes, suffixes: seq<bytes>, ds: seq<Dumped>)
    requires Sized(ds) && AllFramed(ds) && file == DumpAll(ds)
    ensures Copied(file, 0, [], suffixes, ds, 0)
  {
    NothingKept(suffixes);
    assert ds[0..] == ds && ds[..0] == [] && file[0..] == file;
  }

  lemma EndCopy(file: bytes, pos: nat, tmp: bytes, suffixes: seq<bytes>, ds: seq<Dumped>, i: nat)
    requires Copied(file, pos, tmp, suffixes, ds, i) && pos + HEADER_LEN > |file|
    ensures AllNamed(ds) && Sized(Kept(ds, suffixes)) && tmp == DumpAll(Kept(ds, suffixes))
  {
    NextStands(file, pos, tmp, suffixes, ds, i);
    assert ds[..i] == ds;
  }

  lemma NothingKept(suffixes: seq<bytes>)
    ensures AllNamed([]) && Kept([], suffixes) == [] && DumpAll([]) == []
  {
  }

  /** Dump, delete, load: exactly the entries whose names have none of the suffixes. */
  method DumpDeleteLoad(ds: seq<Dumped>, suffixes: seq<bytes>) returns (es: seq<Entry>)
    requires Sized(ds) && AllNamed(ds)
    ensures es == Loaded(Kept(ds, suffixes))
  {
    var out := Delete(DumpAll(ds), suffixes, ds);
    LoadDumpAll(Kept(ds, suffixes));
    es := Load(out.value);
  }

  // ---------------------------------------------------------------- entries across a restart

  /** The entry's fields are in the ranges of their types. */
  ghost predicate InRange(c: Cache.CacheMsg)
    reads c, c.msg
  {
    && -0x8000_0000_0000_0000 <= c.updateTime < 0x8000_0000_0000_0000
    && -0x8000_0000 <= c.ttl < 0x8000_0000 && -0x8000_0000 <= c.ttlR < 0x8000_0000
    && c.qnamelen < 256 && 1 <= c.msg.Length <= MSG_MAXSIZE
  }

  /** What a dump keeps of an entry in memory. */
  function EntryOf(c: Cache.CacheMsg): (e: Entry)
    requires InRange(c)
    reads c, c.msg
  {
    Entry(c.updateTime, c.hashv, c.ttl, c.ttlR, c.qnamelen as byte, c.msg[..], c.addedIp)
  }

  /** load: a new entry in memory. Its message is not checked. */
  method Restore(e: Entry) returns (c: Cache.CacheMsg)
    requires 1 <= |e.msg| <= MSG_MAXSIZE
    ensures fresh(c) && fresh(c.msg) && InRange(c) && EntryOf(c) == e.(addedIp := false)
  {
    hide Cache.Sound;
    c := new Cache.CacheMsg(e.msg, e.qnamelen as int, e.ttl, e.hashv, 0, 0);
    assert c.Abs().msg == e.msg;
    c.updateTime, c.ttlR, c.addedIp := e.updateTime, e.ttlR, false;
    assert c.Abs() == Cache.State(e.updateTime, e.ttl, e.msg);
  }

  lemma {:induction false} LoadedAt(ds: seq<Dumped>, i: nat)
    requires i < |ds|
    ensures |Loaded(ds)| == |ds| && Loaded(ds)[i] == ds[i].entry.(addedIp := false)
    decreases |ds|
  {
    if |ds| == 1 {
      assert Loaded(ds[1..]) == [];
    } else {
      LoadedAt(ds[1..], if i == 0 then 0 else i - 1);
    }
  }

  /** cache.dump */
  method DumpEntries(cs: seq<Cache.CacheMsg>, pads: seq<byte>) returns (data: bytes, ghost ds: seq<Dumped>)
    requires |pads| == |cs| && forall i :: 0 <= i < |cs| ==> InRange(cs[i])
    ensures |ds| == |cs| && forall i :: 0 <= i < |cs| ==> ds[i] == Dumped(EntryOf(cs[i]), pads[i])
    ensures Sized(ds) && data == DumpAll(ds)
  {
    hide Dump;
    data, ds := [], [];
    for i := 0 to |cs|
      invariant |ds| == i && forall j :: 0 <= j < i ==> ds[j] == Dumped(EntryOf(cs[j]), pads[j])
      invariant Sized(ds) && data == DumpAll(ds)
    {
      var d := Dumped(EntryOf(cs[i]), pads[i]);
      DumpSnoc(ds, d);
      data, ds := data + Dump(d), ds + [d];
    }
  }

  method RestoreAll(es: seq<Entry>) returns (rs: seq<Cache.CacheMsg>)
    requires forall i :: 0 <= i < |es| ==> 1 <= |es[i].msg| <= MSG_MAXSIZE
    ensures |rs| == |es|
    ensures forall i :: 0 <= i < |rs| ==> fresh(rs[i]) && InRange(rs[i]) && EntryOf(rs[i]) == es[i].(addedIp := false)
  {
    rs := [];
    for i := 0 to |es|
      invariant |rs| == i
      invariant forall j :: 0 <= j < i ==>
                  fresh(rs[j]) && fresh(rs[j].msg) && InRange(rs[j]) && EntryOf(rs[j]) == es[j].(addedIp := false)
    {
      var c := Restore(es[i]);
      rs := rs + [c];
    }
  }

  /** An entry in memory as it was before, apart from `addedIp`, and as sound. */
  ghost predicate SameEntry(c: Cache.CacheMsg, r: Cache.CacheMsg)
    reads c, c.msg, r, r.msg
  {
    && InRange(c) && InRange(r) && EntryOf(r) == EntryOf(c).(addedIp := false)
    && (c.Valid() <==> r.Valid()) && (c.Valid() ==> (c.Tight() <==> r.Tight()))
  }

  lemma EqualEntries(c: Cache.CacheMsg, r: Cache.CacheMsg)
    requires InRange(c) && InRange(r) && EntryOf(r) == EntryOf(c).(addedIp := false)
    ensures SameEntry(c, r)
  {
    hide Cache.Sound;
    hide Cache.Smallest;
    assert c.Abs() == r.Abs() && c.qnamelen == r.qnamelen;
  }

  /** Entries that are dumped and loaded again are the same, and as sound as they
      were: their ageing goes on as if nothing had happened. */
  method Restart(cs: seq<Cache.CacheMsg>, pads: seq<byte>) returns (rs: seq<Cache.CacheMsg>)
    requires |pads| == |cs| && forall i :: 0 <= i < |cs| ==> InRange(cs[i])
    ensures |rs| == |cs| && forall i :: 0 <= i < |rs| ==> fresh(rs[i]) && SameEntry(cs[i], rs[i])
  {
    hide InRange;
    hide SameEntry;
    var data;
    ghost var ds;
    data, ds := DumpEntries(cs, pads);
    var es := Load(data);
    LoadDumpAll(ds);
    if ds != [] { LoadedAt(ds, 0); }
    forall i | 0 <= i < |es| ensures i < |ds| && es[i] == ds[i].entry.(addedIp := false) {
      LoadedAt(ds, i);
    }
    rs := RestoreAll(es);
    forall i | 0 <= i < |rs| ensures SameEntry(cs[i], rs[i]) {
      EqualEntries(cs[i], rs[i]);
    }
  }
}
