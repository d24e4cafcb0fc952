/** Resource records as section 4.1.3 of RFC 1035 lays them out: what a walk over
    the record area amounts to. */
module DnsRecords {
  import opened Bytes
  import opened DnsName
  import opened DnsWalk

  /** Labels, ended by a null byte or by the two bytes of a pointer. */
  datatype Name = Name(labels: seq<bytes>, ptr: Option<(byte, byte)>) {
    ghost predicate Ok() { Short(labels) && (ptr.Some? ==> ptr.value.0 >= 192) }

    function Bytes(): bytes
      requires Ok()
    {
      LabelBytes(labels) + if ptr.Some? then [ptr.value.0, ptr.value.1] else [0]
    }
  }

  /** Type, class, TTL and data length, and the data. */
  function Fixed(kind: u16, cls: u16, ttl: u32, data: bytes): bytes {
    Big(kind, 2) + (Big(cls, 2) + (Big(ttl, 4) + (Big(|data|, 2) + data)))
  }

  datatype Record = Record(name: Name, kind: u16, cls: u16, ttl: u32, data: bytes) {
    ghost predicate Ok() { name.Ok() && |data| < 0x1_0000 }

    function Bytes(): bytes
      requires Ok()
    {
      name.Bytes() + Fixed(kind, cls, ttl, data)
    }
  }

  ghost predicate AllOk(rs: seq<Record>) { forall i :: 0 <= i < |rs| ==> rs[i].Ok() }

  /** The records, one behind the other. */
  function All(rs: seq<Record>): bytes
    requires AllOk(rs)
  {
    if rs == [] then [] else rs[0].Bytes() + All(rs[1..])
  }

  /** Where the fixed fields of each stand, if the first record begins at `i`. */
  function Places(i: nat, rs: seq<Record>): (ps: seq<nat>)
    requires AllOk(rs)
    ensures |ps| == |rs|
    decreases |rs|
  {
    if rs == [] then [] else [i + |rs[0].name.Bytes()|] + Places(i + |rs[0].Bytes()|, rs[1..])
  }

  /** `s` stands in `m` at `i`. */
  ghost predicate Stands(m: bytes, i: nat, s: bytes) { i + |s| <= |m| && m[i..i + |s|] == s }

  lemma StandsParts(m: bytes, i: nat, s: bytes, t: bytes)
    ensures Stands(m, i, s + t) <==> Stands(m, i, s) && Stands(m, i + |s|, t)
  {
    if Stands(m, i, s + t) {
      assert m[i..i + |s|] == m[i..i + |s + t|][..|s|];
      assert m[i + |s|..i + |s + t|] == m[i..i + |s + t|][|s|..];
    }
    if Stands(m, i, s) && Stands(m, i + |s|, t) {
      assert m[i..i + |s + t|] == m[i..i + |s|] + m[i + |s|..i + |s| + |t|];
    }
  }

  // ---------------------------------------------------------------- names

  lemma {:induction false} LabelsBuilt(m: bytes, i: nat, ls: seq<bytes>)
    requires Short(ls) && Stands(m, i, LabelBytes(ls))
    ensures NameEnd(m, i) == NameEnd(m, i + |LabelBytes(ls)|)
    decreases |ls|
  {
    if ls == [] {
    } else {
      var n := |ls[0]|;
      StandsParts(m, i, [n] + ls[0], LabelBytes(ls[1..]));
      assert |[n] + ls[0]| == 1 + n && m[i..i + 1 + n] == [n] + ls[0];
      assert m[i] == m[i..i + 1 + n][0] == n;
      LabelsBuilt(m, i + 1 + n, ls[1..]);
    }
  }

  /** A name is skipped to its end. */
  lemma {:induction false} NameBuilt(m: bytes, i: nat, name: Name)
    requires name.Ok() && Stands(m, i, name.Bytes())
    ensures NameEnd(m, i) == Some(i + |name.Bytes()|)
  {
    var b, end := LabelBytes(name.labels), if name.ptr.Some? then [name.ptr.value.0, name.ptr.value.1] else [0];
    StandsParts(m, i, b, end);
    LabelsBuilt(m, i, name.labels);
    assert m[i + |b|..i + |b| + |end|][0] == end[0];
  }

  /** Whatever is skipped as a name is one. */
  lemma {:induction false} NameParsed(m: bytes, i: nat) returns (name: Name)
    requires NameEnd(m, i).Some? && NameEnd(m, i).value <= |m|
    ensures name.Ok() && Stands(m, i, name.Bytes()) && NameEnd(m, i).value == i + |name.Bytes()|
    decreases |m| - i
  {
    if m[i] == 0 {
      name := Name([], None);
    } else if m[i] >= 192 {
      name := Name([], Some((m[i], m[i + 1])));
    } else {
      var j := i + 1 + m[i] as int;
      NameEndAfter(m, j);
      var rest := NameParsed(m, j);
      var l := m[i + 1..j];
      name := Name([l] + rest.labels, rest.ptr);
      OneLabel(m, i, l, rest);
    }
  }

  lemma {:induction false} OneLabel(m: bytes, i: nat, l: bytes, rest: Name)
    requires 1 <= |l| <= 63 && rest.Ok() && i + 1 + |l| <= |m| && m[i] == |l| && m[i + 1..i + 1 + |l|] == l
    requires Stands(m, i + 1 + |l|, rest.Bytes())
    ensures var name := Name([l] + rest.labels, rest.ptr);
            name.Ok() && name.Bytes() == [|l|] + l + rest.Bytes() && Stands(m, i, name.Bytes())
  {
    var name := Name([l] + rest.labels, rest.ptr);
    assert name.labels[1..] == rest.labels;
    assert LabelBytes(name.labels) == [|l|] + l + LabelBytes(rest.labels);
    assert m[i..i + 1 + |l|] == [|l|] + l;
    StandsParts(m, i, [|l|] + l, rest.Bytes());
  }

  // ---------------------------------------------------------------- records

  lemma {:induction false} TwoBytes(m: bytes, p: nat, v: u16)
    ensures Stands(m, p, Big(v, 2)) <==> p + 2 <= |m| && Be16(m[p], m[p + 1]) == v
  {
    hide Big;
    hide Be16;
    Digits16(v);
    if p + 2 <= |m| {
      var s := m[p..p + 2];
      assert s == [m[p], m[p + 1]];
      Be16Digits(m[p], m[p + 1]);
    }
  }

  lemma {:induction false} FourBytes(m: bytes, p: nat, v: u32)
    ensures Stands(m, p, Big(v, 4)) <==> p + 4 <= |m| && Be32(m[p], m[p + 1], m[p + 2], m[p + 3]) == v
  {
    hide Big;
    hide Be32;
    hide PutBe32;
    Digits32(v);
    if p + 4 <= |m| {
      var s := m[p..p + 4];
      assert s == [m[p], m[p + 1], m[p + 2], m[p + 3]];
      Be32Digits(m[p], m[p + 1], m[p + 2], m[p + 3]);
    }
  }

  lemma {:induction false} FixedIs(m: bytes, p: nat, kind: u16, cls: u16, ttl: u32, data: bytes)
    requires |data| < 0x1_0000
    ensures |Fixed(kind, cls, ttl, data)| == 10 + |data|
    ensures Stands(m, p, Fixed(kind, cls, ttl, data)) <==>
            && p + 10 + |data| <= |m| && Be16(m[p], m[p + 1]) == kind && Be16(m[p + 2], m[p + 3]) == cls
            && Be32(m[p + 4], m[p + 5], m[p + 6], m[p + 7]) == ttl && Be16(m[p + 8], m[p + 9]) == |data|
            && m[p + 10..p + 10 + |data|] == data
  {
    hide Big;
    hide Be16;
    hide Be32;
    hide Stands;
    var c := Big(|data|, 2) + data;
    StandsParts(m, p, Big(kind, 2), Big(cls, 2) + (Big(ttl, 4) + c));
    StandsParts(m, p + 2, Big(cls, 2), Big(ttl, 4) + c);
    StandsParts(m, p + 4, Big(ttl, 4), c);
    StandsParts(m, p + 8, Big(|data|, 2), data);
    TwoBytes(m, p, kind);
    TwoBytes(m, p + 2, cls);
    FourBytes(m, p + 4, ttl);
    TwoBytes(m, p + 8, |data|);
    DataIs(m, p + 10, data);
  }

  lemma DataIs(m: bytes, p: nat, data: bytes)
    ensures Stands(m, p, data) <==> p + |data| <= |m| && m[p..p + |data|] == data
  {
  }

  /** A record is read as what it was made of. */
  lemma {:induction false} RecordBuilt(m: bytes, i: nat, r: Record)
    requires r.Ok() && Stands(m, i, r.Bytes())
    ensures var p := i + |r.name.Bytes()|;
            RecordAt(m, i) == Some(Rec(p, i + |r.Bytes()|)) && TypeAt(m, p) == r.kind && TtlAt(m, p) == r.ttl
  {
    hide Name.Bytes;
    hide Fixed;
    hide Be16;
    hide Be32;
    StandsParts(m, i, r.name.Bytes(), Fixed(r.kind, r.cls, r.ttl, r.data));
    NameBuilt(m, i, r.name);
    FixedIs(m, i + |r.name.Bytes()|, r.kind, r.cls, r.ttl, r.data);
  }

  /** Whatever is read as a record is one. */
  lemma {:induction false} RecordParsed(m: bytes, i: nat) returns (r: Record)
    requires RecordAt(m, i).Some?
    ensures r.Ok() && Stands(m, i, r.Bytes()) && RecordAt(m, i).value.next == i + |r.Bytes()|
  {
    hide Name.Bytes;
    hide Name.Ok;
    hide Fixed;
    hide Be16;
    hide Be32;
    var p, next := RecordAt(m, i).value.at, RecordAt(m, i).value.next;
    var name := NameParsed(m, i);
    r := Record(name, Be16(m[p], m[p + 1]), Be16(m[p + 2], m[p + 3]), Be32(m[p + 4], m[p + 5], m[p + 6], m[p + 7]),
        m[p + 10..next]);
    FixedIs(m, p, r.kind, r.cls, r.ttl, r.data);
    StandsParts(m, i, name.Bytes(), Fixed(r.kind, r.cls, r.ttl, r.data));
  }

  /** A record's type and TTL stand at `p`. */
  ghost predicate Reads(m: bytes, p: nat, r: Record) {
    p + RECORD_LEN <= |m| && TypeAt(m, p) == r.kind && TtlAt(m, p) == r.ttl
  }

  /** A list of records is walked over to its end, and each is read as it was built. */
  lemma {:induction false} WalkBuilt(m: bytes, i: nat, rs: seq<Record>)
    requires AllOk(rs) && Stands(m, i, All(rs))
    ensures Walk(m, i, |rs|) == Some(i + |All(rs)|) && Fields(m, i, |rs|) == Places(i, rs)
    ensures forall j :: 0 <= j < |rs| ==> Reads(m, Places(i, rs)[j], rs[j])
  {
    hide Reads;
    hide Walk;
    hide Fields;
    hide Stands;
    hide AllOk;
    Walked(m, i, rs);
    AllRead(m, i, rs);
  }

  lemma {:induction false} Walked(m: bytes, i: nat, rs: seq<Record>)
    requires AllOk(rs) && Stands(m, i, All(rs))
    ensures Walk(m, i, |rs|) == Some(i + |All(rs)|) && Fields(m, i, |rs|) == Places(i, rs)
    decreases |rs|
  {
    hide Record.Bytes;
    hide Record.Ok;
    hide RecordAt;
    hide TypeAt;
    hide TtlAt;
    hide Stands;
    if rs == [] {
      WholeMessage(m, i);
    } else {
      StandsParts(m, i, rs[0].Bytes(), All(rs[1..]));
      RecordBuilt(m, i, rs[0]);
      Walked(m, i + |rs[0].Bytes()|, rs[1..]);
    }
  }

  lemma WholeMessage(m: bytes, i: nat)
    ensures Stands(m, i, []) ==> i <= |m|
  {
  }

  lemma {:induction false} AllRead(m: bytes, i: nat, rs: seq<Record>)
    requires AllOk(rs) && Stands(m, i, All(rs))
    ensures forall j :: 0 <= j < |rs| ==> Reads(m, Places(i, rs)[j], rs[j])
    decreases |rs|
  {
    hide Record.Bytes;
    hide Record.Ok;
    hide RecordAt;
    hide TypeAt;
    hide TtlAt;
    hide Stands;
    if rs == [] {
    } else {
      var ps := Places(i + |rs[0].Bytes()|, rs[1..]);
      StandsParts(m, i, rs[0].Bytes(), All(rs[1..]));
      RecordBuilt(m, i, rs[0]);
      AllRead(m, i + |rs[0].Bytes()|, rs[1..]);
      forall j | 1 <= j < |rs| ensures Reads(m, Places(i, rs)[j], rs[j]) {
        assert Places(i, rs)[j] == ps[j - 1] && rs[j] == rs[1..][j - 1];
      }
    }
  }

  /** Whatever is walked over is a list of records. */
  lemma {:induction false} WalkParsed(m: bytes, i: nat, n: nat) returns (rs: seq<Record>)
    requires i <= |m| && Walk(m, i, n).Some?
    ensures |rs| == n && AllOk(rs) && Stands(m, i, All(rs)) && Walk(m, i, n) == Some(i + |All(rs)|)
    decreases n
  {
    hide Record.Bytes;
    hide Record.Ok;
    hide RecordAt;
    if n == 0 {
      rs := [];
      assert m[i..i] == [];
    } else {
      var r := RecordParsed(m, i);
      var rest := WalkParsed(m, RecordAt(m, i).value.next, n - 1);
      rs := [r] + rest;
      assert rs[1..] == rest;
      StandsParts(m, i, r.Bytes(), All(rest));
    }
  }

  /** `n` records fill the message from `i` to `e`. */
  ghost predicate Records(m: bytes, i: nat, n: nat, e: nat) {
    i <= e <= |m| && exists rs :: |rs| == n && AllOk(rs) && m[i..e] == All(rs)
  }

  /** A walk gets to `e` exactly if the records stand up to there. */
  lemma {:induction false} WalkWhen(m: bytes, i: nat, n: nat, e: nat)
    requires i <= |m|
    ensures Walk(m, i, n) == Some(e) <==> Records(m, i, n, e)
  {
    hide Walk;
    hide All;
    hide AllOk;
    if Walk(m, i, n) == Some(e) {
      var rs := WalkParsed(m, i, n);
      assert m[i..e] == All(rs);
    }
    if Records(m, i, n, e) {
      var rs :| |rs| == n && AllOk(rs) && m[i..e] == All(rs);
      WalkBuilt(m, i, rs);
    }
  }

  // ---------------------------------------------------------------- rewriting

  /** Visiting a list of records leaves a list of records with the same layout: the TTLs
      of those other than OPT (41) are the visitor's, and no other byte changes. */
  lemma {:induction false} RewriteRecords(v: Visitor, m: bytes, i: nat, rs: seq<Record>) returns (ss: seq<Record>)
    requires i <= |m| && AllOk(rs) && Stands(m, i, All(rs))
    ensures FieldsOf(m, Places(i, rs)) && AllOk(ss) && |ss| == |rs| && Places(i, ss) == Places(i, rs)
    ensures |All(ss)| == |All(rs)|
    ensures var k := Rewrite(v, m, Places(i, rs));
            && Stands(k, i, All(ss))
            && (forall j :: 0 <= j < |rs| ==>
                  ss[j].kind == rs[j].kind
                  && ss[j].ttl == if rs[j].kind == 41 then rs[j].ttl else NewTtl(v, rs[j].ttl))
            && (forall x :: 0 <= x < |m| && NoTtl(Places(i, rs), x) ==> k[x] == m[x])
  {
    hide Walk;
    hide Fields;
    hide All;
    hide AllOk;
    hide NewTtl;
    hide Rewrite;
    hide NoTtl;
    hide TypeAt;
    hide TtlAt;
    hide Stands;
    WalkBuilt(m, i, rs);
    var ps := Fields(m, i, |rs|);
    var k := Rewrite(v, m, ps);
    assert ps[..|ps|] == ps;
    RewriteWalk(v, m, i, |rs|, |ps|);
    FieldsSpread(m, i, |rs|);
    ss := WalkParsed(k, i, |rs|);
    WalkBuilt(k, i, ss);
    forall j | 0 <= j < |rs|
      ensures ss[j].kind == rs[j].kind
      ensures ss[j].ttl == if rs[j].kind == 41 then rs[j].ttl else NewTtl(v, rs[j].ttl)
    {
      RewriteTtl(v, m, ps, j);
    }
    forall x | 0 <= x < |m| && NoTtl(ps, x) ensures k[x] == m[x] { RewriteKeeps(v, m, ps, x); }
  }

  /** A positive bound raises or lowers a TTL to itself, the upper one last. */
  lemma ClampMeans(ttl: int, min: int, max: int)
    ensures min <= 0 && max <= 0 ==> Clamp(ttl, min, max) == ttl
    ensures min > 0 && max <= 0 ==> Clamp(ttl, min, max) >= min && (ttl >= min ==> Clamp(ttl, min, max) == ttl)
                                    && (ttl < min ==> Clamp(ttl, min, max) == min)
    ensures min <= 0 && max > 0 ==> Clamp(ttl, min, max) <= max && (ttl <= max ==> Clamp(ttl, min, max) == ttl)
                                    && (ttl > max ==> Clamp(ttl, min, max) == max)
    ensures 0 < min <= max ==> min <= Clamp(ttl, min, max) <= max && (min <= ttl <= max ==> Clamp(ttl, min, max) == ttl)
                               && (ttl < min ==> Clamp(ttl, min, max) == min)
                               && (ttl > max ==> Clamp(ttl, min, max) == max)
    ensures 0 < max < min ==> Clamp(ttl, min, max) == max
  {
  }

  /** Reading leaves the clamped TTL, ageing the TTL and the change but at least one;
      both take the TTL, and leave the result, as a signed 32-bit number. */
  lemma NewTtlMeans(ttl: u32, min: int, max: int, change: int)
    requires -0x8000_0000 <= min < 0x8000_0000 && -0x8000_0000 <= max < 0x8000_0000
    ensures var signed := if ttl < 0x8000_0000 then ttl else ttl - 0x1_0000_0000;
            && NewTtl(Skip, ttl) == ttl
            && (var c := Clamp(signed, min, max);
                NewTtl(GetTtl(min, max), ttl) == if c < 0 then c + 0x1_0000_0000 else c)
            && (-0x8000_0000 <= signed + change < 0x8000_0000 ==>
                  NewTtl(UpdateTtl(change), ttl) == if signed + change >= 1 then signed + change else 1)
            && (0x8000_0000 <= signed + change <= 0x1_0000_0000 ==> NewTtl(UpdateTtl(change), ttl) == 1)
            && (-0x1_0000_0000 < signed + change < -0x8000_0000 ==>
                  NewTtl(UpdateTtl(change), ttl) == signed + change + 0x1_0000_0000)
  {
    hide ToI32;
    hide ToU32;
    hide Clamp;
    var signed := if ttl < 0x8000_0000 then ttl else ttl - 0x1_0000_0000;
    Wrapped(ttl);
    Wrapped(signed + change);
    Wrapped(Clamp(signed, min, max));
    Wrapped(Max(ToI32(signed + change), 1));
    ClampMeans(signed, min, max);
  }

  /** Numbers up to 2^31 out of range wrap around once. */
  lemma Wrapped(x: int)
    ensures -0x8000_0000 <= x < 0x8000_0000 ==> ToI32(x) == x
    ensures 0x8000_0000 <= x < 0x1_8000_0000 ==> ToI32(x) == x - 0x1_0000_0000
    ensures -0x1_8000_0000 <= x < -0x8000_0000 ==> ToI32(x) == x + 0x1_0000_0000
    ensures 0 <= x < 0x1_0000_0000 ==> ToU32(x) == x
    ensures -0x8000_0000 <= x < 0 ==> ToU32(x) == x + 0x1_0000_0000
  {
  }
}
