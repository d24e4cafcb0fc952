/** Checking a DNS message, stripping its additional section, and ageing its TTLs. */
module DnsMsg {
  import opened Bytes
  import opened DnsName
  import DnsRecords
  import opened DnsWalk
  import opened Labels

  const HEADER_LEN := 12
  const QUESTION_LEN := 4
  const MSG_MINSIZE := 17
  const MSG_MAXSIZE := 65535
  const RCODE_NOERROR := 0
  const RCODE_NXDOMAIN := 3

  // ---------------------------------------------------------------- the header

  ghost predicate HasHeader(m: bytes) { HEADER_LEN <= |m| }

  predicate Qr(m: bytes) requires HasHeader(m) { m[2] >= 128 }

  predicate Tc(m: bytes) requires HasHeader(m) { m[2] / 2 % 2 == 1 }

  predicate Ra(m: bytes) requires HasHeader(m) { m[3] >= 128 }

  function Rcode(m: bytes): int requires HasHeader(m) { m[3] % 16 }

  function QuestionCount(m: bytes): u16 requires HasHeader(m) { Be16(m[4], m[5]) }

  function AnswerCount(m: bytes): u16 requires HasHeader(m) { Be16(m[6], m[7]) }

  function AuthorityCount(m: bytes): u16 requires HasHeader(m) { Be16(m[8], m[9]) }

  function AdditionalCount(m: bytes): u16 requires HasHeader(m) { Be16(m[10], m[11]) }

  function RecordsCount(m: bytes): nat
    requires HasHeader(m)
  {
    AnswerCount(m) as int + AuthorityCount(m) as int + AdditionalCount(m) as int
  }

  /** dns_is_good */
  predicate Good(m: bytes)
    requires HasHeader(m)
  {
    !Tc(m) && (Rcode(m) == RCODE_NOERROR || Rcode(m) == RCODE_NXDOMAIN)
  }

  /** msg_minlen: header and question */
  function MinLen(qnamelen: nat): nat { HEADER_LEN + qnamelen + QUESTION_LEN }

  // ---------------------------------------------------------------- what is accepted

  /** memchr for a zero byte */
  function FirstZero(m: bytes, i: nat): (r: Option<nat>)
    requires i <= |m|
    ensures r.Some? ==> i <= r.value < |m| && m[r.value] == 0
    decreases |m| - i
  {
    if i == |m| then None else if m[i] == 0 then Some(i) else FirstZero(m, i + 1)
  }

  /** The encoded length of the question's name, counted up to the first zero byte. */
  function QnameLen(m: bytes): Option<nat>
    requires HasHeader(m)
  {
    var z := FirstZero(m, HEADER_LEN);
    if z.None? then None else Some(z.value + 1 - HEADER_LEN)
  }

  predicate NameOk(w: bytes) { |w| <= NAME_WIRE_MINLEN || Parse(w[..|w| - 1], 0).Some? }

  /** check_msg accepts; `named` when the caller wants the name in text form. */
  predicate Accepts(isQuery: bool, m: bytes, named: bool) {
    && MSG_MINSIZE <= |m| <= MSG_MAXSIZE && Qr(m) == !isQuery && QuestionCount(m) == 1
    && QnameLen(m).Some?
    && var q := QnameLen(m).value;
    && NAME_WIRE_MINLEN <= q <= NAME_WIRE_MAXLEN && MinLen(q) <= |m|
    && (named ==> NameOk(m[HEADER_LEN..HEADER_LEN + q]))
  }

  /** What check_msg leaves: a query loses its TC bit, once the question count is seen to be right. */
  function Checked(isQuery: bool, m: bytes): (r: bytes)
    ensures |r| == |m|
  {
    if MSG_MINSIZE <= |m| <= MSG_MAXSIZE && Qr(m) == !isQuery && QuestionCount(m) == 1 && isQuery && Tc(m)
    then m[2 := m[2] - 2] else m
  }

  /** The length without the additional section, if the sections before it are well formed. */
  function TrimmedLen(m: bytes, qnamelen: nat): Option<nat>
    requires HasHeader(m) && MinLen(qnamelen) <= |m|
  {
    if !Good(m) then Some(|m|)
    else Walk(m, MinLen(qnamelen), AnswerCount(m) as int + AuthorityCount(m) as int)
  }

  /** The whole buffer after a reply has been accepted. */
  function Cleaned(m: bytes): (r: bytes)
    requires HasHeader(m)
    ensures |r| == |m|
  {
    var c := if Good(m) then m[10 := 0][11 := 0] else m;
    c[3 := if m[3] >= 128 then m[3] else m[3] + 128]
  }

  // ---------------------------------------------------------------- in plain terms

  /** The question's name takes `q` bytes: it ends with the first null byte, and four
      bytes follow it; `named` when its text is wanted, so that it must be labels. */
  ghost predicate Question(m: bytes, q: nat, named: bool) {
    && 1 <= q <= 255 && 16 + q <= |m| && m[11 + q] == 0 && (forall k :: 12 <= k < 11 + q ==> m[k] != 0)
    && (named && q > 1 ==> exists ls :: Short(ls) && m[12..11 + q] == LabelBytes(ls))
  }

  /** A message of 17 to 65535 bytes with the right QR bit and one question. */
  ghost predicate Proper(isQuery: bool, m: bytes, q: nat, named: bool) {
    17 <= |m| <= 65535 && (m[2] >= 128 <==> !isQuery) && m[4] as int * 256 + m[5] as int == 1 && Question(m, q, named)
  }

  lemma {:induction false} FirstZeroAt(m: bytes, i: nat, z: nat)
    requires i <= |m|
    ensures FirstZero(m, i) == Some(z) <==> i <= z < |m| && m[z] == 0 && forall k :: i <= k < z ==> m[k] != 0
    decreases |m| - i
  {
    if i == |m| {
    } else if m[i] != 0 {
      FirstZeroAt(m, i + 1, z);
    }
  }

  lemma {:induction false} NameOkWhen(w: bytes)
    ensures NameOk(w) <==> |w| <= 1 || exists ls :: Short(ls) && w[..|w| - 1] == LabelBytes(ls)
  {
    hide LabelBytes;
    hide Short;
    if |w| > 1 {
      var s := w[..|w| - 1];
      if Parse(s, 0).Some? { ParseWhen(s, Parse(s, 0).value); }
      if exists ls :: Short(ls) && s == LabelBytes(ls) {
        var ls :| Short(ls) && s == LabelBytes(ls);
        ParseWhen(s, ls);
      }
    }
  }

  /** What is accepted, and the length of its name. */
  lemma {:induction false} AcceptsWhen(isQuery: bool, m: bytes, named: bool, q: nat)
    ensures Accepts(isQuery, m, named) && QnameLen(m) == Some(q) <==> Proper(isQuery, m, q, named)
  {
    hide NameOk;
    hide LabelBytes;
    hide FirstZero;
    hide Short;
    if 17 <= |m| && 1 <= q && 12 + q <= |m| {
      FirstZeroAt(m, 12, 11 + q);
      var w := m[12..12 + q];
      NameOkWhen(w);
      assert w[..|w| - 1] == m[12..11 + q];
    }
  }

  /** A query with one question loses its TC bit (2) and keeps all the others; nothing else changes. */
  lemma CheckedWhen(isQuery: bool, m: bytes)
    ensures var k := Checked(isQuery, m);
            if isQuery && 17 <= |m| <= 65535 && m[2] < 128 && m[4] as int * 256 + m[5] as int == 1 then
              && |k| == |m| && k[2] % 4 < 2 && k[2] % 2 == m[2] % 2 && k[2] / 4 == m[2] / 4
              && forall x :: 0 <= x < |m| && x != 2 ==> k[x] == m[x]
            else k == m
  {
  }

  /** Neither truncated, nor an error other than a name that does not exist. */
  ghost predicate Fine(m: bytes)
    requires HasHeader(m)
  {
    (m[2] % 4 == 0 || m[2] % 4 == 1) && (m[3] % 16 == 0 || m[3] % 16 == 3)
  }

  lemma GoodWhen(m: bytes)
    requires HasHeader(m)
    ensures Good(m) <==> Fine(m)
  {
  }

  /** The answer and authority records of a good reply end at `e`; another is not cut. */
  ghost predicate Cut(m: bytes, q: nat, e: nat)
    requires HasHeader(m)
  {
    if Fine(m) then
      DnsRecords.Records(m, 16 + q, m[6] as int * 256 + m[7] as int + (m[8] as int * 256 + m[9] as int), e)
    else e == |m|
  }

  lemma {:induction false} TrimmedWhen(m: bytes, qnamelen: nat, e: nat)
    requires HasHeader(m) && MinLen(qnamelen) <= |m|
    ensures TrimmedLen(m, qnamelen) == Some(e) <==> Cut(m, qnamelen, e)
  {
    hide DnsRecords.Records;
    hide Walk;
    GoodWhen(m);
    DnsRecords.WalkWhen(m, 16 + qnamelen, AnswerCount(m) as int + AuthorityCount(m) as int, e);
  }

  /** All records together fill the message. */
  lemma {:induction false} WalkableWhen(m: bytes, qnamelen: nat)
    ensures Walkable(m, qnamelen) <==>
            && 16 + qnamelen <= |m|
            && DnsRecords.Records(m, 16 + qnamelen, m[6] as int * 256 + m[7] as int + (m[8] as int * 256 + m[9] as int)
                                                    + (m[10] as int * 256 + m[11] as int), |m|)
  {
    hide DnsRecords.Records;
    hide Walk;
    if 16 + qnamelen <= |m| { DnsRecords.WalkWhen(m, 16 + qnamelen, RecordsCount(m), |m|); }
  }

  /** A reply that is accepted: its name takes `q` bytes, and it is cut at `e`. */
  ghost predicate Reply(m: bytes, named: bool, q: nat, e: nat) { Proper(false, m, q, named) && Cut(m, q, e) }

  ghost predicate IsReply(m: bytes, named: bool) { exists q: nat, e: nat :: Reply(m, named, q, e) }

  lemma {:induction false} IsReplyWhen(m: bytes, named: bool)
    ensures IsReply(m, named) <==> Accepts(false, m, named) && TrimmedLen(m, QnameLen(m).value).Some?
  {
    hide Reply;
    hide TrimmedLen;
    hide NameOk;
    if Accepts(false, m, named) && TrimmedLen(m, QnameLen(m).value).Some? {
      ReplyWhen(m, named, QnameLen(m).value, TrimmedLen(m, QnameLen(m).value).value);
    }
    if IsReply(m, named) {
      var q: nat, e: nat :| Reply(m, named, q, e);
      ReplyWhen(m, named, q, e);
    }
  }

  /** The reply is marked as one that recursion made, and a good one has lost its additional section's count. */
  ghost predicate Marked(m: bytes, k: bytes)
    requires HasHeader(m)
  {
    && |k| == |m| && k[3] >= 128 && k[3] % 128 == m[3] % 128 && (Fine(m) ==> k[10] == 0 && k[11] == 0)
    && forall x :: 0 <= x < |m| && x != 3 && !(Fine(m) && (x == 10 || x == 11)) ==> k[x] == m[x]
  }

  lemma {:induction false} ReplyWhen(m: bytes, named: bool, q: nat, e: nat)
    ensures Reply(m, named, q, e) <==>
            Accepts(false, m, named) && QnameLen(m) == Some(q) && TrimmedLen(m, q) == Some(e)
    ensures HasHeader(m) ==> Marked(m, Cleaned(m))
  {
    hide Question;
    hide QnameLen;
    hide NameOk;
    hide DnsRecords.Records;
    hide Walk;
    AcceptsWhen(false, m, named, q);
    if HasHeader(m) {
      GoodWhen(m);
      if MinLen(q) <= |m| { TrimmedWhen(m, q, e); }
    }
  }

  // ---------------------------------------------------------------- checking

  method FindZero(buf: array<byte>, start: nat, end: nat) returns (z: Option<nat>)
    requires start <= end <= buf.Length
    ensures z == FirstZero(buf[..end], start)
  {
    for i := start to end
      invariant FirstZero(buf[..end], start) == FirstZero(buf[..end], i)
    {
      if buf[i] == 0 { return Some(i); }
    }
    return None;
  }

  /** `out` holds the text of the wire name `w`. */
  ghost predicate NamedAs(out: array<byte>, w: bytes)
    requires out.Length == NAME_MAXLEN + 1 && |w| <= NAME_WIRE_MAXLEN
    reads out
  {
    if |w| <= NAME_WIRE_MINLEN then out[..2] == [DOT, 0]
    else
      var ls := Parse(w[..|w| - 1], 0);
      ls.Some? && out[..|w| - 2] == Join(ls.value) && out[|w| - 2] == w[|w| - 1]
  }

  method DecodeQname(buf: array<byte>, qnamelen: nat, asciiName: array<byte>) returns (ok: bool)
    requires qnamelen <= NAME_WIRE_MAXLEN && HEADER_LEN + qnamelen <= buf.Length && asciiName.Length == NAME_MAXLEN + 1
    requires asciiName != buf
    modifies asciiName
    ensures ok <==> NameOk(buf[HEADER_LEN..HEADER_LEN + qnamelen])
    ensures ok ==> NamedAs(asciiName, buf[HEADER_LEN..HEADER_LEN + qnamelen])
  {
    ok := DecodeName(asciiName, buf[HEADER_LEN..HEADER_LEN + qnamelen], qnamelen);
  }

  /** check_msg */
  method CheckMsg(isQuery: bool, buf: array<byte>, len: nat, asciiName: array?<byte>) returns (ok: bool, qnamelen: nat)
    requires len <= buf.Length && (asciiName != null ==> asciiName.Length == NAME_MAXLEN + 1 && asciiName != buf)
    modifies buf, if asciiName == null then {} else {asciiName}
    ensures ok <==> Accepts(isQuery, old(buf[..len]), asciiName != null)
    ensures buf[..len] == Checked(isQuery, old(buf[..len]))
    ensures forall k :: len <= k < buf.Length ==> buf[k] == old(buf[k])
    ensures ok ==> QnameLen(old(buf[..len])) == Some(qnamelen)
    ensures ok && asciiName != null ==> NamedAs(asciiName, old(buf[HEADER_LEN..HEADER_LEN + qnamelen]))
  {
    hide NamedAs;
    hide NameOk;
    ok, qnamelen := false, 0;
    if len < MSG_MINSIZE || len > MSG_MAXSIZE { return; }
    ghost var m := buf[..len];
    if (buf[2] >= 128) != !isQuery { return; }
    if Be16(buf[4], buf[5]) != 1 { return; }
    ClearTc(isQuery, buf, len);
    ZeroSame(m, buf[..len], HEADER_LEN);
    var p := FindZero(buf, HEADER_LEN, len);
    if p.None? { return; }
    qnamelen := p.value + 1 - HEADER_LEN;
    if qnamelen < NAME_WIRE_MINLEN || qnamelen > NAME_WIRE_MAXLEN { return; }
    QnameSame(m, buf, len, qnamelen);
    if asciiName != null {
      var decoded := DecodeQname(buf, qnamelen, asciiName);
      if !decoded { return; }
    }
    if len - HEADER_LEN - qnamelen < QUESTION_LEN { return; }
    assert old(buf[HEADER_LEN..HEADER_LEN + qnamelen]) == m[HEADER_LEN..HEADER_LEN + qnamelen];
    ok := true;
  }

  /** A query is not truncated. */
  method ClearTc(isQuery: bool, buf: array<byte>, len: nat)
    requires MSG_MINSIZE <= len <= MSG_MAXSIZE && len <= buf.Length && Qr(buf[..len]) == !isQuery
    requires QuestionCount(buf[..len]) == 1
    modifies buf
    ensures buf[..len] == Checked(isQuery, old(buf[..len])) && Same(old(buf[..len]), buf[..len], HEADER_LEN, len)
    ensures forall k :: len <= k < buf.Length ==> buf[k] == old(buf[k])
  {
    if isQuery && buf[2] / 2 % 2 == 1 {
      ghost var m := buf[..len];
      buf[2] := buf[2] - 2;
      assert buf[..len] == m[2 := m[2] - 2];
    }
  }

  lemma QnameSame(m: bytes, buf: array<byte>, len: nat, qnamelen: nat)
    requires HEADER_LEN + qnamelen <= len <= buf.Length && |m| == len && Same(m, buf[..len], HEADER_LEN, len)
    ensures buf[HEADER_LEN..HEADER_LEN + qnamelen] == m[HEADER_LEN..HEADER_LEN + qnamelen]
  {
    var u, v := buf[HEADER_LEN..HEADER_LEN + qnamelen], m[HEADER_LEN..HEADER_LEN + qnamelen];
    forall i | 0 <= i < qnamelen ensures u[i] == v[i] {
      assert buf[..len][HEADER_LEN + i] == m[HEADER_LEN + i];
    }
  }

  lemma {:induction false} ZeroSame(m: bytes, c: bytes, i: nat)
    requires |c| == |m| && i <= |m| && Same(m, c, i, |m|)
    ensures FirstZero(c, i) == FirstZero(m, i)
    decreases |m| - i
  {
    if i == |m| {
    } else {
      ZeroSame(m, c, i + 1);
    }
  }

  /** rm_additional: 0 when the sections before are malformed. */
  method RmAdditional(buf: array<byte>, len: nat, qnamelen: nat) returns (newlen: nat)
    requires MinLen(qnamelen) <= len <= buf.Length
    modifies buf
    ensures newlen == (if TrimmedLen(old(buf[..len]), qnamelen).None? then 0
            else TrimmedLen(old(buf[..len]), qnamelen).value)
    ensures buf[..len] == if newlen > 0 && Good(old(buf[..len])) then old(buf[..len])[10 := 0][11 := 0]
            else old(buf[..len])
  {
    ghost var m := buf[..len];
    var tc, rcode := buf[2] / 2 % 2 == 1, buf[3] % 16;
    if tc || (rcode != RCODE_NOERROR && rcode != RCODE_NXDOMAIN) { return len; }
    var count := Be16(buf[6], buf[7]) as int + Be16(buf[8], buf[9]) as int;
    var ok, ptr := SkipRecords(buf, MinLen(qnamelen), len, count);
    if !ok { return 0; }
    buf[10], buf[11] := 0, 0;
    assert buf[..len] == m[10 := 0][11 := 0];
    return ptr;
  }

  /** skip_record */
  method SkipRecords(buf: array<byte>, start: nat, len: nat, count: nat) returns (ok: bool, ptr: nat)
    requires start <= len <= buf.Length
    modifies buf
    ensures buf[..len] == old(buf[..len])
    ensures ok <==> Walk(old(buf[..len]), start, count).Some?
    ensures ok ==> Walk(old(buf[..len]), start, count) == Some(ptr)
  {
    hide Walk;
    hide Fields;
    hide Rewrite;
    hide FindAll;
    ghost var m := buf[..len];
    RewriteSkip(m, Fields(m, start, count));
    assert start + (len - start) == len;
    var rest, f;
    ok, ptr, rest, f := ForeachRecord(buf, start, len - start, count, Skip, Found(0, true));
  }

  /** dns_check_reply: `newlen` is the length without the additional section. What is
      accepted, and where it is cut, is said in terms of the records that stand in it. */
  method CheckReply(buf: array<byte>, len: nat, asciiName: array?<byte>) returns (ok: bool, qnamelen: nat, newlen: nat)
    requires len <= buf.Length && (asciiName != null ==> asciiName.Length == NAME_MAXLEN + 1 && asciiName != buf)
    modifies buf, if asciiName == null then {} else {asciiName}
    ensures ok <==> IsReply(old(buf[..len]), asciiName != null)
    ensures ok ==> Reply(old(buf[..len]), asciiName != null, qnamelen, newlen) && Marked(old(buf[..len]), buf[..len])
    ensures !ok ==> buf[..len] == old(buf[..len])
    ensures ok <==>
              Accepts(false, old(buf[..len]), asciiName != null)
              && TrimmedLen(old(buf[..len]), QnameLen(old(buf[..len])).value).Some?
    ensures ok ==>
              && QnameLen(old(buf[..len])) == Some(qnamelen) && TrimmedLen(old(buf[..len]), qnamelen) == Some(newlen)
              && buf[..len] == Cleaned(old(buf[..len]))
  {
    hide Reply;
    hide IsReply;
    hide Marked;
    hide QnameLen;
    hide Question;
    hide NameOk;
    hide TrimmedLen;
    hide Cleaned;
    ghost var m := buf[..len];
    ok, qnamelen, newlen := CheckAndCut(buf, len, asciiName);
    IsReplyWhen(m, asciiName != null);
    ReplyWhen(m, asciiName != null, qnamelen, newlen);
  }

  method CheckAndCut(buf: array<byte>, len: nat, asciiName: array?<byte>) returns (ok: bool, qnamelen: nat, newlen: nat)
    requires len <= buf.Length && (asciiName != null ==> asciiName.Length == NAME_MAXLEN + 1 && asciiName != buf)
    modifies buf, if asciiName == null then {} else {asciiName}
    ensures ok <==>
              Accepts(false, old(buf[..len]), asciiName != null)
              && TrimmedLen(old(buf[..len]), QnameLen(old(buf[..len])).value).Some?
    ensures ok ==> QnameLen(old(buf[..len])) == Some(qnamelen) && TrimmedLen(old(buf[..len]), qnamelen) == Some(newlen)
    ensures buf[..len] == if ok then Cleaned(old(buf[..len])) else old(buf[..len])
  {
    ghost var m := buf[..len];
    newlen := 0;
    ok, qnamelen := CheckMsg(false, buf, len, asciiName);
    if !ok { return; }
    newlen := RmAdditional(buf, len, qnamelen);
    if newlen == 0 { return false, qnamelen, newlen; }
    if buf[3] < 128 { buf[3] := buf[3] + 128; } // ra
    assert buf[..len] == Cleaned(m);
  }

  lemma {:induction false} RewriteSkip(m: bytes, ps: seq<nat>)
    requires FieldsOf(m, ps)
    ensures Rewrite(Skip, m, ps) == m
    decreases |ps|
  {
    if ps == [] {
    } else {
      RewriteSkip(m, ps[..|ps| - 1]);
      TtlKept(m, ps[|ps| - 1]);
    }
  }

  // ---------------------------------------------------------------- what the stripped reply is

  /** The records fill the message exactly. */
  ghost predicate Walkable(m: bytes, qnamelen: nat) {
    HasHeader(m) && MinLen(qnamelen) <= |m| && Walk(m, MinLen(qnamelen), RecordsCount(m)) == Some(|m|)
  }

  /** The reply that an accepted message becomes. */
  function Stripped(m: bytes, qnamelen: nat): bytes
    requires HasHeader(m) && MinLen(qnamelen) <= |m| && TrimmedLen(m, qnamelen).Some?
  {
    Cleaned(m)[..TrimmedLen(m, qnamelen).value]
  }

  /** A good reply is cut exactly behind its answer and authority records. */
  lemma {:induction false} StrippedWalkable(m: bytes, qnamelen: nat)
    requires HasHeader(m) && MinLen(qnamelen) <= |m| && Good(m) && TrimmedLen(m, qnamelen).Some?
    ensures var k := Stripped(m, qnamelen);
            Walkable(k, qnamelen) && Good(k) && AdditionalCount(k) == 0
                && RecordsCount(k) == AnswerCount(m) as int + AuthorityCount(m) as int
            && Fields(k, MinLen(qnamelen), RecordsCount(k)) == Fields(m, MinLen(qnamelen), RecordsCount(k))
            && k[HEADER_LEN..] == m[HEADER_LEN..|k|]
  {
    hide RecordAt;
    var c, n, e := Cleaned(m), AnswerCount(m) as int + AuthorityCount(m) as int, TrimmedLen(m, qnamelen).value;
    CleanedSame(m);
    WalkTail(m, c, MinLen(qnamelen), n);
    WalkPrefix(c, MinLen(qnamelen), n, e);
    WalkPrefix(m, MinLen(qnamelen), n, e);
    var k := c[..e];
    SameHeader(c, k);
    assert forall x :: HEADER_LEN <= x < |k| ==> k[x] == m[x];
  }

  lemma {:induction false} CleanedSame(m: bytes)
    requires HasHeader(m)
    ensures var c := Cleaned(m);
            && Same(m, c, HEADER_LEN, |m|) && AnswerCount(c) == AnswerCount(m) && AuthorityCount(c) == AuthorityCount(m)
            && QuestionCount(c) == QuestionCount(m) && Qr(c) == Qr(m) && Ra(c) && (Good(c) <==> Good(m))
            && Cleaned(c) == c
            && (Good(m) ==> AdditionalCount(c) == 0)
  {
  }

  lemma SameHeader(m: bytes, k: bytes)
    requires HasHeader(m) && HasHeader(k) && m[..HEADER_LEN] == k[..HEADER_LEN]
    ensures AnswerCount(k) == AnswerCount(m) && AuthorityCount(k) == AuthorityCount(m)
    ensures AdditionalCount(k) == AdditionalCount(m)
    ensures QuestionCount(k) == QuestionCount(m) && Qr(k) == Qr(m) && Ra(k) == Ra(m) && (Good(k) <==> Good(m))
  {
    assert forall x :: 0 <= x < HEADER_LEN ==> m[..HEADER_LEN][x] == m[x] && k[..HEADER_LEN][x] == k[x];
  }

  lemma CleanedPrefix(c: bytes, e: nat)
    requires HEADER_LEN <= e <= |c| && HasHeader(c) && Cleaned(c) == c
    ensures HasHeader(c[..e]) && Cleaned(c[..e]) == c[..e]
  {
    SameHeader(c, c[..e]);
    assert Ra(c) && (Good(c) ==> c[10] == 0 && c[11] == 0);
    assert c[..e][3] == c[3] && c[..e][10] == c[10] && c[..e][11] == c[11];
  }

  /** Checking the stripped reply again accepts it and changes nothing. */
  lemma {:induction false} Recheck(m: bytes, named: bool)
    requires Accepts(false, m, named) && TrimmedLen(m, QnameLen(m).value).Some?
    ensures var q := QnameLen(m).value;
            var k := Stripped(m, q);
            && Accepts(false, k, named) && QnameLen(k) == Some(q) && TrimmedLen(k, q) == Some(|k|) && Cleaned(k) == k
  {
    hide RecordAt;
    hide Parse;
    hide Cleaned;
    hide Walk;
    hide Fields;
    hide FirstZero;
    var q := QnameLen(m).value;
    var c, e := Cleaned(m), TrimmedLen(m, q).value;
    TrimmedEnd(m, q);
    var k := c[..e];
    CleanedSame(m);
    SameHeader(c, k);
    CleanedPrefix(c, e);
    ZeroPrefix(m, k, HEADER_LEN);
    assert k[HEADER_LEN..HEADER_LEN + q] == m[HEADER_LEN..HEADER_LEN + q];
    if Good(m) { StrippedWalkable(m, q); }
  }

  lemma TrimmedEnd(m: bytes, qnamelen: nat)
    requires HasHeader(m) && MinLen(qnamelen) <= |m| && TrimmedLen(m, qnamelen).Some?
    ensures MinLen(qnamelen) <= TrimmedLen(m, qnamelen).value <= |m|
  {
  }

  lemma {:induction false} ZeroPrefix(m: bytes, k: bytes, i: nat)
    requires i <= |m| && FirstZero(m, i).Some? && Same(m, k, i, FirstZero(m, i).value + 1)
    ensures FirstZero(k, i) == FirstZero(m, i)
    decreases |m| - i
  {
    if m[i] == 0 {
    } else {
      ZeroPrefix(m, k, i + 1);
    }
  }

  // ---------------------------------------------------------------- TTLs

  /** The result of dns_get_ttl. */
  ghost function TtlResult(m: bytes, qnamelen: nat, nodataTtl: int, min: int, max: int): int
    requires HasHeader(m) && MinLen(qnamelen) <= |m|
  {
    if !Good(m) || Walk(m, MinLen(qnamelen), RecordsCount(m)).None? then -1
    else FindAll(DnsWalk.GetTtl(min, max), Found(nodataTtl, true), m, RecordFields(m, qnamelen)).ttl
  }

  /** dns_get_ttl */
  method GetTtl(buf: array<byte>, len: nat, qnamelen: nat, nodataTtl: int, min: int, max: int) returns (ttl: int)
    requires MinLen(qnamelen) <= len <= buf.Length
    modifies buf
    ensures ttl == TtlResult(old(buf[..len]), qnamelen, nodataTtl, min, max)
    ensures buf[..len] == if Good(old(buf[..len])) then Aged(DnsWalk.GetTtl(min, max), old(buf[..len]), qnamelen)
                          else old(buf[..len])
  {
    hide Walk;
    hide Fields;
    hide Rewrite;
    hide FindAll;
    assert MinLen(qnamelen) + (len - MinLen(qnamelen)) == len;
    var tc, rcode := buf[2] / 2 % 2 == 1, buf[3] % 16;
    if tc || (rcode != RCODE_NOERROR && rcode != RCODE_NXDOMAIN) { return -1; }
    var count := Be16(buf[6], buf[7]) as int + Be16(buf[8], buf[9]) as int + Be16(buf[10], buf[11]) as int;
    var ok, ptr, rest, f := ForeachRecord(buf, MinLen(qnamelen), len - MinLen(qnamelen), count,
        DnsWalk.GetTtl(min, max), Found(nodataTtl, true));
    return if ok then f.ttl else -1;
  }

  /** dns_update_ttl: the result says whether both of its assertions hold. */
  method UpdateTtl(buf: array<byte>, len: nat, qnamelen: nat, change: int) returns (asserts: bool)
    requires MinLen(qnamelen) <= len <= buf.Length
    modifies buf
    ensures asserts <==> Walkable(old(buf[..len]), qnamelen)
    ensures buf[..len] == Aged(DnsWalk.UpdateTtl(change), old(buf[..len]), qnamelen)
  {
    hide Walk;
    hide Fields;
    hide Rewrite;
    hide FindAll;
    assert MinLen(qnamelen) + (len - MinLen(qnamelen)) == len;
    var count := Be16(buf[6], buf[7]) as int + Be16(buf[8], buf[9]) as int + Be16(buf[10], buf[11]) as int;
    var ok, ptr, rest, f := ForeachRecord(buf, MinLen(qnamelen), len - MinLen(qnamelen), count,
        DnsWalk.UpdateTtl(change), Found(0, true));
    return ok && rest == 0;
  }

  function RecordFields(m: bytes, qnamelen: nat): (ps: seq<nat>)
    requires HasHeader(m) && MinLen(qnamelen) <= |m|
    ensures FieldsOf(m, ps)
  {
    Fields(m, MinLen(qnamelen), RecordsCount(m))
  }

  /** The message after all its records have been visited. */
  function Aged(v: Visitor, m: bytes, qnamelen: nat): (r: bytes)
    requires HasHeader(m) && MinLen(qnamelen) <= |m|
    ensures |r| == |m|
  {
    Rewrite(v, m, RecordFields(m, qnamelen))
  }

  /** Rewriting TTLs keeps the header, the question and the layout of the records. */
  lemma {:induction false} AgedWalk(v: Visitor, m: bytes, qnamelen: nat)
    requires HasHeader(m) && MinLen(qnamelen) <= |m|
    ensures var r := Aged(v, m, qnamelen);
            && r[..MinLen(qnamelen)] == m[..MinLen(qnamelen)] && RecordsCount(r) == RecordsCount(m)
            && (Good(r) <==> Good(m))
            && RecordFields(r, qnamelen) == RecordFields(m, qnamelen)
            && (Walkable(r, qnamelen) <==> Walkable(m, qnamelen))
  {
    hide Rewrite;
    hide Walk;
    hide Fields;
    var ps, r := RecordFields(m, qnamelen), Aged(v, m, qnamelen);
    RewriteWalk(v, m, MinLen(qnamelen), RecordsCount(m), |ps|);
    assert ps[..|ps|] == ps;
    forall x | 0 <= x < MinLen(qnamelen) ensures r[x] == m[x] {
      assert NoTtl(ps, x);
      RewriteKeeps(v, m, ps, x);
    }
    assert forall x :: 0 <= x < HEADER_LEN ==> r[x] == m[x];
  }

  /** The result of dns_get_ttl over some record other than OPT: the smallest of
      the TTLs that it leaves in the message. */
  lemma {:induction false} SmallestTtl(m: bytes, ps: seq<nat>, nodataTtl: int, min: int, max: int)
    requires FieldsOf(m, ps) && Spread(ps) && -0x8000_0000 <= min < 0x8000_0000 && -0x8000_0000 <= max < 0x8000_0000
    ensures var v := DnsWalk.GetTtl(min, max);
            var f := FindAll(v, Found(nodataTtl, true), m, ps);
            && (f.nodata <==> forall j :: 0 <= j < |ps| ==> TypeAt(m, ps[j]) == TYPE_OPT)
            && (f.nodata ==> f.ttl == nodataTtl)
            && (!f.nodata ==> exists j ::
                  0 <= j < |ps| && TypeAt(m, ps[j]) != TYPE_OPT && ToI32(TtlAt(Rewrite(v, m, ps), ps[j])) == f.ttl)
            && forall j :: 0 <= j < |ps| && TypeAt(m, ps[j]) != TYPE_OPT ==>
                  f.ttl <= ToI32(TtlAt(Rewrite(v, m, ps), ps[j]))
  {
    hide FindAll;
    hide Rewrite;
    hide TypeAt;
    hide TtlAt;
    var v := DnsWalk.GetTtl(min, max);
    var w := SmallestClamped(m, ps, nodataTtl, min, max);
    forall j | 0 <= j < |ps| && TypeAt(m, ps[j]) != TYPE_OPT
      ensures ToI32(TtlAt(Rewrite(v, m, ps), ps[j])) == Clamp(ToI32(TtlAt(m, ps[j])), min, max)
    {
      RewriteTtl(v, m, ps, j);
      ClampBack(ToI32(TtlAt(m, ps[j])), min, max);
    }
  }

  lemma {:induction false} ClampBack(ttl: int, min: int, max: int)
    requires -0x8000_0000 <= ttl < 0x8000_0000 && -0x8000_0000 <= min < 0x8000_0000 && -0x8000_0000 <= max < 0x8000_0000
    ensures ToI32(ToU32(Clamp(ttl, min, max))) == Clamp(ttl, min, max)
  {
  }

  /** What dns_get_ttl returns for the records `rs`: the TTLs are signed numbers, clamped. */
  ghost predicate SmallestOf(rs: seq<DnsRecords.Record>, nodataTtl: int, min: int, max: int, r: int) {
    if forall j :: 0 <= j < |rs| ==> rs[j].kind == 41 then r == nodataTtl
    else
      && (exists j :: 0 <= j < |rs| && rs[j].kind != 41 && r == Bounded(rs[j].ttl, min, max))
      && forall j :: 0 <= j < |rs| && rs[j].kind != 41 ==> r <= Bounded(rs[j].ttl, min, max)
  }

  function Bounded(ttl: u32, min: int, max: int): int {
    Clamp(if ttl < 0x8000_0000 then ttl else ttl - 0x1_0000_0000, min, max)
  }

  /** A reply that is not good, or whose records do not stand in it, gives -1. */
  lemma {:induction false} ResultWhen(m: bytes, qnamelen: nat, rs: seq<DnsRecords.Record>, nodataTtl: int, min: int,
                                      max: int)
    requires HasHeader(m) && MinLen(qnamelen) <= |m| && DnsRecords.AllOk(rs)
    requires |rs| == m[6] as int * 256 + m[7] as int + (m[8] as int * 256 + m[9] as int)
                     + (m[10] as int * 256 + m[11] as int)
    ensures !Fine(m) ==> TtlResult(m, qnamelen, nodataTtl, min, max) == -1
    ensures Fine(m) && DnsRecords.Stands(m, 16 + qnamelen, DnsRecords.All(rs)) ==>
              SmallestOf(rs, nodataTtl, min, max, TtlResult(m, qnamelen, nodataTtl, min, max))
  {
    hide Walk;
    hide Fields;
    hide FindAll;
    hide SmallestOf;
    hide DnsRecords.Reads;
    hide DnsRecords.Stands;
    hide DnsRecords.All;
    hide DnsRecords.AllOk;
    GoodWhen(m);
    if Fine(m) && DnsRecords.Stands(m, 16 + qnamelen, DnsRecords.All(rs)) {
      DnsRecords.WalkBuilt(m, 16 + qnamelen, rs);
      SmallestRead(m, RecordFields(m, qnamelen), rs, nodataTtl, min, max);
    }
  }

  lemma {:induction false} SmallestRead(m: bytes, ps: seq<nat>, rs: seq<DnsRecords.Record>, nodataTtl: int, min: int,
                                        max: int)
    requires FieldsOf(m, ps) && |ps| == |rs|
    requires forall j :: 0 <= j < |rs| ==> DnsRecords.Reads(m, ps[j], rs[j])
    ensures SmallestOf(rs, nodataTtl, min, max, FindAll(DnsWalk.GetTtl(min, max), Found(nodataTtl, true), m, ps).ttl)
  {
    hide FindAll;
    hide TypeAt;
    hide TtlAt;
    hide Clamp;
    var w := SmallestClamped(m, ps, nodataTtl, min, max);
  }

  /** The smallest clamped TTL; `w` is a record that has it. */
  lemma {:induction false} SmallestClamped(m: bytes, ps: seq<nat>, nodataTtl: int, min: int, max: int) returns (w: nat)
    requires FieldsOf(m, ps)
    ensures var f := FindAll(DnsWalk.GetTtl(min, max), Found(nodataTtl, true), m, ps);
            && (f.nodata ==> f.ttl == nodataTtl && forall j :: 0 <= j < |ps| ==> TypeAt(m, ps[j]) == TYPE_OPT)
            && (!f.nodata ==>
                  w < |ps| && TypeAt(m, ps[w]) != TYPE_OPT
                  && Clamp(ToI32(TtlAt(m, ps[w])), min, max) == f.ttl)
            && forall j :: 0 <= j < |ps| && TypeAt(m, ps[j]) != TYPE_OPT ==>
                  f.ttl <= Clamp(ToI32(TtlAt(m, ps[j])), min, max)
    decreases |ps|
  {
    w := 0;
    if ps == [] {
    } else {
      hide TypeAt;
      hide TtlAt;
      hide Clamp;
      var n := |ps| - 1;
      var v := DnsWalk.GetTtl(min, max);
      w := SmallestClamped(m, ps[..n], nodataTtl, min, max);
      assert forall j :: 0 <= j < n ==> ps[..n][j] == ps[j];
      if FindAll(v, Found(nodataTtl, true), m, ps) != FindAll(v, Found(nodataTtl, true), m, ps[..n]) { w := n; }
    }
  }

  // ---------------------------------------------------------------- a cached reply in use

  datatype TtlOp = Get(nodataTtl: int, min: int, max: int) | Update(change: int)

  /** What reading or ageing leaves of a message; a reply that is not good is not read. */
  function AfterOp(m: bytes, qnamelen: nat, op: TtlOp): (r: bytes)
    requires HasHeader(m) && MinLen(qnamelen) <= |m|
    ensures |r| == |m|
  {
    match op
    case Get(_, min, max) => if Good(m) then Aged(DnsWalk.GetTtl(min, max), m, qnamelen) else m
    case Update(change) => Aged(DnsWalk.UpdateTtl(change), m, qnamelen)
  }

  function AfterOps(m: bytes, qnamelen: nat, ops: seq<TtlOp>): (r: bytes)
    requires HasHeader(m) && MinLen(qnamelen) <= |m|
    ensures |r| == |m|
  {
    if ops == [] then m else AfterOp(AfterOps(m, qnamelen, ops[..|ops| - 1]), qnamelen, ops[|ops| - 1])
  }

  /** Its records fill the message afterwards exactly if they did before. */
  lemma AfterOpWalk(m: bytes, qnamelen: nat, op: TtlOp)
    requires HasHeader(m) && MinLen(qnamelen) <= |m|
    ensures Walkable(AfterOp(m, qnamelen, op), qnamelen) <==> Walkable(m, qnamelen)
  {
    hide Walkable;
    hide Aged;
    match op
    case Get(_, min, max) => AgedWalk(DnsWalk.GetTtl(min, max), m, qnamelen);
    case Update(change) => AgedWalk(DnsWalk.UpdateTtl(change), m, qnamelen);
  }

  lemma {:induction false} AfterOpsWalk(m: bytes, qnamelen: nat, ops: seq<TtlOp>)
    requires HasHeader(m) && MinLen(qnamelen) <= |m|
    ensures Walkable(AfterOps(m, qnamelen, ops), qnamelen) <==> Walkable(m, qnamelen)
    decreases |ops|
  {
    hide Walkable;
    hide AfterOp;
    if ops == [] {
    } else {
      var n := |ops| - 1;
      AfterOpsWalk(m, qnamelen, ops[..n]);
      AfterOpWalk(AfterOps(m, qnamelen, ops[..n]), qnamelen, ops[n]);
    }
  }

  /** A good reply is accepted and stripped, and then read and aged any number of
      times: whenever it is aged, its records fill it. */
  lemma UsableForever(m: bytes, named: bool, ops: seq<TtlOp>, i: nat)
    requires Accepts(false, m, named) && Good(m) && TrimmedLen(m, QnameLen(m).value).Some? && i <= |ops|
    ensures var q := QnameLen(m).value;
            MinLen(q) <= |Stripped(m, q)| && Walkable(AfterOps(Stripped(m, q), q, ops[..i]), q)
  {
    hide Walkable;
    hide AfterOps;
    hide Stripped;
    var q := QnameLen(m).value;
    StrippedWalkable(m, q);
    WalkableLen(Stripped(m, q), q);
    AfterOpsWalk(Stripped(m, q), q, ops[..i]);
  }

  lemma WalkableLen(m: bytes, qnamelen: nat)
    requires Walkable(m, qnamelen)
    ensures HasHeader(m) && MinLen(qnamelen) <= |m|
  {
  }

  /** A reply is checked, stripped, and then read and aged: `asserts` says whether
      the assertions of dns_update_ttl hold every time. */
  method UseReply(buf: array<byte>, len: nat, ops: seq<TtlOp>) returns (ok: bool, asserts: bool)
    requires len <= buf.Length
    modifies buf
    ensures ok <==>
              Accepts(false, old(buf[..len]), false)
              && TrimmedLen(old(buf[..len]), QnameLen(old(buf[..len])).value).Some?
    ensures ok ==>
              var q := QnameLen(old(buf[..len])).value;
              var k := Stripped(old(buf[..len]), q);
              && MinLen(q) <= |k| <= len && buf[..|k|] == AfterOps(k, q, ops)
              && (asserts <==> Walkable(k, q) || forall op <- ops :: op.Get?)
    ensures ok && Good(old(buf[..len])) ==> asserts
    ensures !ok ==> asserts && buf[..len] == old(buf[..len])
  {
    hide Walkable;
    hide Walk;
    hide FirstZero;
    var q, newlen;
    ghost var m := buf[..len];
    ok, q, newlen := CheckReply(buf, len, null);
    asserts := true;
    if ok {
      TrimmedEnd(m, q);
      assert buf[..newlen] == buf[..len][..newlen] == Stripped(m, q);
      if Good(m) { StrippedWalkable(m, q); }
      asserts := UseStripped(buf, newlen, q, ops);
    }
  }

  method UseStripped(buf: array<byte>, len: nat, q: nat, ops: seq<TtlOp>) returns (asserts: bool)
    requires MinLen(q) <= len <= buf.Length
    modifies buf
    ensures buf[..len] == AfterOps(old(buf[..len]), q, ops)
    ensures asserts <==> Walkable(old(buf[..len]), q) || forall op <- ops :: op.Get?
  {
    hide Walkable;
    hide AfterOp;
    asserts := true;
    for i := 0 to |ops|
      invariant buf[..len] == AfterOps(old(buf[..len]), q, ops[..i])
      invariant asserts <==> Walkable(old(buf[..len]), q) || forall op <- ops[..i] :: op.Get?
    {
      assert ops[..i + 1][..i] == ops[..i] && ops[..i + 1] == ops[..i] + [ops[i]];
      AfterOpsWalk(old(buf[..len]), q, ops[..i]);
      var a := UseOnce(buf, len, q, ops[i]);
      asserts := asserts && a;
    }
    assert ops[..|ops|] == ops;
  }

  method UseOnce(buf: array<byte>, len: nat, q: nat, op: TtlOp) returns (asserts: bool)
    requires MinLen(q) <= len <= buf.Length
    modifies buf
    ensures buf[..len] == AfterOp(old(buf[..len]), q, op)
    ensures asserts <==> Walkable(old(buf[..len]), q) || op.Get?
  {
    hide Walkable;
    hide Aged;
    hide FindAll;
    hide Walk;
    asserts := true;
    match op
    case Get(nodataTtl, min, max) => var ttl := GetTtl(buf, len, q, nodataTtl, min, max);
    case Update(change) => asserts := UpdateTtl(buf, len, q, change);
  }
}
