/** The record area of a DNS message (section 4.1.3 of RFC 1035): walking over it
    without following compressed names, and rewriting TTLs in place. */
module DnsWalk {
  import opened Bytes
  import opened Labels

  const PTR_MINVAL := 192
  const RECORD_LEN := 10 // type, class, ttl, rdatalen
  const TYPE_OPT: u16 := 41

  // ---------------------------------------------------------------- reading

  /** Where the name at `i` ends. */
  function NameEnd(m: bytes, i: nat): Option<nat>
    decreases if i < |m| then |m| - i else 0
  {
    if i >= |m| then None
    else if m[i] == 0 then Some(i + 1)
    else if m[i] >= PTR_MINVAL then Some(i + 2)
    else if m[i] <= LABEL_MAXLEN then NameEnd(m, i + 1 + m[i] as int)
    else None
  }

  /** A record: where its fixed fields stand and where the next record starts. */
  datatype Rec = Rec(at: nat, next: nat)

  function RecordAt(m: bytes, i: nat): (r: Option<Rec>)
    ensures r.Some? ==> i < r.value.at && r.value.at + RECORD_LEN <= r.value.next <= |m|
  {
    NameEndAfter(m, i);
    var p := NameEnd(m, i);
    if p.None? || p.value + RECORD_LEN > |m| then None
    else
      var next := p.value + RECORD_LEN + Be16(m[p.value + 8], m[p.value + 9]) as int;
      if next > |m| then None else Some(Rec(p.value, next))
  }

  lemma {:induction false} NameEndAfter(m: bytes, i: nat)
    ensures NameEnd(m, i).Some? ==> i < NameEnd(m, i).value
    decreases if i < |m| then |m| - i else 0
  {
    if i >= |m| || m[i] == 0 || m[i] > LABEL_MAXLEN {
    } else {
      NameEndAfter(m, i + 1 + m[i] as int);
    }
  }

  /** The end of `n` records from `i` on. */
  function Walk(m: bytes, i: nat, n: nat): (r: Option<nat>)
    requires i <= |m|
    ensures r.Some? ==> i <= r.value <= |m|
    decreases n
  {
    if n == 0 then Some(i)
    else
      var r := RecordAt(m, i);
      if r.None? then None else Walk(m, r.value.next, n - 1)
  }

  /** The fixed fields of those records, up to the first malformed one. */
  function Fields(m: bytes, i: nat, n: nat): (ps: seq<nat>)
    requires i <= |m|
    ensures forall j :: 0 <= j < |ps| ==> i < ps[j] && ps[j] + RECORD_LEN <= |m|
    decreases n
  {
    if n == 0 then []
    else
      var r := RecordAt(m, i);
      if r.None? then [] else [r.value.at] + Fields(m, r.value.next, n - 1)
  }

  function TypeAt(m: bytes, p: nat): u16
    requires p + RECORD_LEN <= |m|
  {
    Be16(m[p], m[p + 1])
  }

  function TtlAt(m: bytes, p: nat): u32
    requires p + RECORD_LEN <= |m|
  {
    Be32(m[p + 4], m[p + 5], m[p + 6], m[p + 7])
  }

  function SetTtl(m: bytes, p: nat, ttl: u32): (r: bytes)
    requires p + RECORD_LEN <= |m|
    ensures |r| == |m| && forall k :: 0 <= k < |m| && !(p + 4 <= k < p + 8) ==> r[k] == m[k]
  {
    m[..p + 4] + PutBe32(ttl) + m[p + 8..]
  }

  lemma TtlSet(m: bytes, p: nat, ttl: u32)
    requires p + RECORD_LEN <= |m|
    ensures TtlAt(SetTtl(m, p, ttl), p) == ttl
  {
    hide PutBe32;
    hide Be32;
    var b := PutBe32(ttl);
    assert SetTtl(m, p, ttl)[p + 4] == b[0] && SetTtl(m, p, ttl)[p + 5] == b[1] && SetTtl(m, p, ttl)[p + 6] == b[2]
        && SetTtl(m, p, ttl)[p + 7] == b[3];
  }

  lemma TtlKept(m: bytes, p: nat)
    requires p + RECORD_LEN <= |m|
    ensures SetTtl(m, p, TtlAt(m, p)) == m
  {
    hide PutBe32;
    hide Be32;
    Be32Digits(m[p + 4], m[p + 5], m[p + 6], m[p + 7]);
    assert m == m[..p + 4] + [m[p + 4], m[p + 5], m[p + 6], m[p + 7]] + m[p + 8..];
  }

  // ---------------------------------------------------------------- what a walk depends on

  /** `m` and `k` agree from `i` up to `j`. */
  ghost predicate Same(m: bytes, k: bytes, i: nat, j: nat) {
    j <= |m| && j <= |k| && forall x :: i <= x < j ==> m[x] == k[x]
  }

  /** A record is read alike in a message that agrees on its name and its length,
      whether or not the message goes on behind it. */
  lemma RecordSame(m: bytes, k: bytes, i: nat)
    requires RecordAt(m, i).Some? && RecordAt(m, i).value.next <= |k|
    requires var p := RecordAt(m, i).value.at; Same(m, k, i, p) && k[p + 8] == m[p + 8] && k[p + 9] == m[p + 9]
    ensures RecordAt(k, i) == RecordAt(m, i)
  {
    NameEndSame(m, k, i);
  }

  lemma {:induction false} NameEndSame(m: bytes, k: bytes, i: nat)
    requires NameEnd(m, i).Some? && Same(m, k, i, NameEnd(m, i).value)
    ensures NameEnd(k, i) == NameEnd(m, i)
    decreases if i < |m| then |m| - i else 0
  {
    NameEndAfter(m, i);
    if m[i] == 0 || m[i] > LABEL_MAXLEN {
    } else {
      NameEndSame(m, k, i + 1 + m[i] as int);
    }
  }

  /** Nothing before the first record matters, malformed or not. */
  lemma RecordTail(m: bytes, k: bytes, i: nat)
    requires |m| == |k| && Same(m, k, i, |m|)
    ensures RecordAt(k, i) == RecordAt(m, i)
  {
    NameEndTail(m, k, i);
  }

  lemma {:induction false} NameEndTail(m: bytes, k: bytes, i: nat)
    requires |m| == |k| && Same(m, k, i, |m|)
    ensures NameEnd(k, i) == NameEnd(m, i)
    decreases if i < |m| then |m| - i else 0
  {
    if i >= |m| || m[i] == 0 || m[i] > LABEL_MAXLEN {
    } else {
      NameEndTail(m, k, i + 1 + m[i] as int);
    }
  }

  lemma {:induction false} WalkTail(m: bytes, k: bytes, i: nat, n: nat)
    requires |m| == |k| && i <= |m| && Same(m, k, i, |m|)
    ensures Walk(k, i, n) == Walk(m, i, n) && Fields(k, i, n) == Fields(m, i, n)
    decreases n
  {
    if n == 0 {
    } else {
      RecordTail(m, k, i);
      if RecordAt(m, i).Some? { WalkTail(m, k, RecordAt(m, i).value.next, n - 1); }
    }
  }

  /** What stands behind the last record does not matter. */
  lemma {:induction false} WalkPrefix(m: bytes, i: nat, n: nat, e: nat)
    requires i <= |m| && Walk(m, i, n).Some? && Walk(m, i, n).value <= e <= |m|
    ensures Walk(m[..e], i, n) == Walk(m, i, n) && Fields(m[..e], i, n) == Fields(m, i, n)
    decreases n
  {
    if n == 0 {
    } else {
      RecordSame(m, m[..e], i);
      WalkPrefix(m, RecordAt(m, i).value.next, n - 1, e);
    }
  }

  /** Writing the TTL of one of the records changes nothing about the walk. */
  lemma {:induction false} WalkSetTtl(m: bytes, i: nat, n: nat, j: nat, ttl: u32)
    requires i <= |m| && j < |Fields(m, i, n)|
    ensures var k := SetTtl(m, Fields(m, i, n)[j], ttl);
            Walk(k, i, n) == Walk(m, i, n) && Fields(k, i, n) == Fields(m, i, n)
    decreases n
  {
    hide RecordAt;
    hide Same;
    hide SetTtl;
    var r := RecordAt(m, i).value;
    var k := SetTtl(m, Fields(m, i, n)[j], ttl);
    RecordSame(m, k, i);
    if j == 0 {
      WalkTail(m, k, r.next, n - 1);
    } else {
      WalkSetTtl(m, r.next, n - 1, j - 1, ttl);
    }
  }

  // ---------------------------------------------------------------- rewriting

  /** What is done with each record. */
  datatype Visitor = Skip | GetTtl(min: int, max: int) | UpdateTtl(change: int)

  /** The TTL that a record other than OPT gets. */
  function NewTtl(v: Visitor, ttl: u32): u32 {
    match v
    case Skip => ttl
    case GetTtl(min, max) => ToU32(Clamp(ToI32(ttl), min, max))
    case UpdateTtl(change) => ToU32(Max(ToI32(ToI32(ttl) + change), 1))
  }

  /** A positive bound raises, or lowers, the TTL to itself. */
  function Clamp(ttl: int, min: int, max: int): int {
    var low := if min > 0 && ttl < min then min else ttl;
    if max > 0 && low > max then max else low
  }

  function Visit(v: Visitor, m: bytes, p: nat): (r: bytes)
    requires p + RECORD_LEN <= |m|
    ensures |r| == |m| && forall k :: 0 <= k < |m| && !(p + 4 <= k < p + 8) ==> r[k] == m[k]
  {
    if TypeAt(m, p) == TYPE_OPT then m else SetTtl(m, p, NewTtl(v, TtlAt(m, p)))
  }

  ghost predicate FieldsOf(m: bytes, ps: seq<nat>) { forall j :: 0 <= j < |ps| ==> ps[j] + RECORD_LEN <= |m| }

  /** The message after these records have been visited, one after the other. */
  function Rewrite(v: Visitor, m: bytes, ps: seq<nat>): (r: bytes)
    requires FieldsOf(m, ps)
    ensures |r| == |m|
  {
    if ps == [] then m else Visit(v, Rewrite(v, m, ps[..|ps| - 1]), ps[|ps| - 1])
  }

  /** The walk over the rewritten message is the walk over the original. */
  lemma {:induction false} RewriteWalk(v: Visitor, m: bytes, i: nat, n: nat, k: nat)
    requires i <= |m| && k <= |Fields(m, i, n)|
    ensures var r := Rewrite(v, m, Fields(m, i, n)[..k]);
            Walk(r, i, n) == Walk(m, i, n) && Fields(r, i, n) == Fields(m, i, n)
    decreases k
  {
    hide Walk;
    hide Fields;
    hide Visit;
    var ps := Fields(m, i, n);
    if k == 0 {
    } else {
      RewriteWalk(v, m, i, n, k - 1);
      assert ps[..k][..k - 1] == ps[..k - 1];
      WalkVisit(v, Rewrite(v, m, ps[..k - 1]), i, n, k - 1);
    }
  }

  lemma WalkVisit(v: Visitor, m: bytes, i: nat, n: nat, j: nat)
    requires i <= |m| && j < |Fields(m, i, n)|
    ensures var r := Visit(v, m, Fields(m, i, n)[j]);
            Walk(r, i, n) == Walk(m, i, n) && Fields(r, i, n) == Fields(m, i, n)
  {
    hide Walk;
    hide Fields;
    hide NewTtl;
    var p := Fields(m, i, n)[j];
    if TypeAt(m, p) != TYPE_OPT { WalkSetTtl(m, i, n, j, NewTtl(v, TtlAt(m, p))); }
  }

  /** Each record's fields stand behind those of the one before. */
  ghost predicate Spread(ps: seq<nat>) { forall j, k :: 0 <= j < k < |ps| ==> ps[j] + RECORD_LEN < ps[k] }

  lemma {:induction false} FieldsSpread(m: bytes, i: nat, n: nat)
    requires i <= |m|
    ensures Spread(Fields(m, i, n))
    decreases n
  {
    if n == 0 || RecordAt(m, i).None? {
    } else {
      FieldsSpread(m, RecordAt(m, i).value.next, n - 1);
    }
  }

  /** A byte that belongs to none of the TTLs. */
  ghost predicate NoTtl(ps: seq<nat>, x: nat) { forall j :: 0 <= j < |ps| ==> !(ps[j] + 4 <= x < ps[j] + 8) }

  /** Bytes outside the TTLs keep their values. */
  lemma {:induction false} RewriteKeeps(v: Visitor, m: bytes, ps: seq<nat>, x: nat)
    requires FieldsOf(m, ps) && x < |m| && NoTtl(ps, x)
    ensures Rewrite(v, m, ps)[x] == m[x]
    decreases |ps|
  {
    if ps == [] {
    } else {
      var n := |ps| - 1;
      assert !(ps[n] + 4 <= x < ps[n] + 8);
      assert NoTtl(ps[..n], x);
      RewriteKeeps(v, m, ps[..n], x);
    }
  }

  /** The TTL of each record other than OPT changes as the visitor says; types never change. */
  lemma {:induction false} RewriteTtl(v: Visitor, m: bytes, ps: seq<nat>, j: nat)
    requires FieldsOf(m, ps) && Spread(ps) && j < |ps|
    ensures TypeAt(Rewrite(v, m, ps), ps[j]) == TypeAt(m, ps[j])
    ensures TtlAt(Rewrite(v, m, ps), ps[j]) == if TypeAt(m, ps[j]) == TYPE_OPT then TtlAt(m, ps[j])
            else NewTtl(v, TtlAt(m, ps[j]))
    decreases |ps|
  {
    hide NewTtl;
    var n := |ps| - 1;
    var r := Rewrite(v, m, ps[..n]);
    if j < n {
      RewriteTtl(v, m, ps[..n], j);
      SameFields(r, Rewrite(v, m, ps), ps[j]);
    } else {
      RewriteBefore(v, m, ps[..n], ps[n]);
      SameFields(m, r, ps[n]);
      TtlSet(r, ps[n], NewTtl(v, TtlAt(r, ps[n])));
    }
  }

  lemma SameFields(m: bytes, k: bytes, p: nat)
    requires p + RECORD_LEN <= |m| && Same(m, k, p, p + RECORD_LEN)
    ensures TypeAt(k, p) == TypeAt(m, p) && TtlAt(k, p) == TtlAt(m, p)
  {
  }

  /** Visiting records leaves what stands behind them. */
  lemma {:induction false} RewriteBefore(v: Visitor, m: bytes, ps: seq<nat>, i: nat)
    requires FieldsOf(m, ps) && forall j :: 0 <= j < |ps| ==> ps[j] + RECORD_LEN <= i
    ensures Same(m, Rewrite(v, m, ps), i, |m|)
    decreases |ps|
  {
    if ps == [] {
    } else {
      RewriteBefore(v, m, ps[..|ps| - 1], i);
    }
  }

  // ---------------------------------------------------------------- the loop

  /** What get_ttl has found: the smallest TTL so far, or none. */
  datatype Found = Found(ttl: int, nodata: bool)

  function Find(v: Visitor, f: Found, m: bytes, p: nat): Found
    requires p + RECORD_LEN <= |m|
  {
    if !v.GetTtl? || TypeAt(m, p) == TYPE_OPT then f
    else
      var ttl := Clamp(ToI32(TtlAt(m, p)), v.min, v.max);
      if f.nodata || ttl < f.ttl then Found(ttl, false) else f
  }

  function FindAll(v: Visitor, f: Found, m: bytes, ps: seq<nat>): Found
    requires FieldsOf(m, ps)
  {
    if ps == [] then f else Find(v, FindAll(v, f, m, ps[..|ps| - 1]), m, ps[|ps| - 1])
  }

  /** skip_name: the name is skipped, and the fixed fields of a record follow it. */
  method SkipName(buf: array<byte>, ptr: nat, len: nat) returns (ok: bool, ptr': nat, len': nat)
    requires ptr + len <= buf.Length
    ensures ok <==>
              NameEnd(buf[..ptr + len], ptr).Some?
              && NameEnd(buf[..ptr + len], ptr).value + RECORD_LEN <= ptr + len
    ensures ok ==> ptr' == NameEnd(buf[..ptr + len], ptr).value && ptr' + len' == ptr + len
  {
    ghost var m := buf[..ptr + len];
    var p, left: int := ptr, len;
    while left > 0
      invariant ptr <= p && p + left == ptr + len && NameEnd(m, ptr) == NameEnd(m, p)
      decreases left
    {
      var labelLen := buf[p] as int;
      if labelLen == 0 {
        p, left := p + 1, left - 1;
        break;
      } else if labelLen >= PTR_MINVAL {
        p, left := p + 2, left - 2;
        break;
      } else if labelLen <= LABEL_MAXLEN {
        p, left := p + 1 + labelLen, left - (1 + labelLen);
      } else {
        return false, ptr, len;
      }
    }
    if left < RECORD_LEN { return false, ptr, len; }
    return true, p, left;
  }

  /** get_ttl or update_ttl, on the record whose fixed fields stand at `at`. */
  method VisitRecord(buf: array<byte>, end: nat, at: nat, v: Visitor, f: Found) returns (f': Found)
    requires end <= buf.Length && at + RECORD_LEN <= end
    modifies buf
    ensures buf[..end] == Visit(v, old(buf[..end]), at) && f' == Find(v, f, old(buf[..end]), at)
    ensures forall k :: end <= k < buf.Length ==> buf[k] == old(buf[k])
  {
    hide Be32;
    hide SetTtl;
    ghost var m := buf[..end];
    TtlKept(m, at);
    f' := f;
    if Be16(buf[at], buf[at + 1]) == TYPE_OPT { return; }
    var rttl := Be32(buf[at + 4], buf[at + 5], buf[at + 6], buf[at + 7]);
    SignedBack(rttl);
    match v
    case Skip =>
    case GetTtl(min, max) =>
      var ttl := ToI32(rttl);
      var overwritten := false;
      if min > 0 && ttl < min { ttl, overwritten := min, true; }
      if max > 0 && ttl > max { ttl, overwritten := max, true; }
      if overwritten { PutTtl(buf, end, at, ToU32(ttl)); }
      if f.nodata || ttl < f.ttl { f' := Found(ttl, false); }
    case UpdateTtl(change) =>
      var ttl := ToI32(ToI32(rttl) + change);
      PutTtl(buf, end, at, ToU32(Max(ttl, 1)));
  }

  lemma SignedBack(x: u32)
    ensures ToU32(ToI32(x)) == x
  {
  }

  method PutTtl(buf: array<byte>, end: nat, at: nat, ttl: u32)
    requires end <= buf.Length && at + RECORD_LEN <= end
    modifies buf
    ensures buf[..end] == SetTtl(old(buf[..end]), at, ttl)
    ensures forall k :: end <= k < buf.Length ==> buf[k] == old(buf[k])
  {
    var b := PutBe32(ttl);
    buf[at + 4], buf[at + 5], buf[at + 6], buf[at + 7] := b[0], b[1], b[2], b[3];
  }

  /** foreach_record: on success the cursor stands behind the records; a malformed
      record stops the loop, after those before it have been visited. */
  method ForeachRecord(buf: array<byte>, ptr: nat, len: nat, count: nat, v: Visitor, f0: Found)
    returns (ok: bool, ptr': nat, len': nat, f: Found)
    requires ptr + len <= buf.Length
    modifies buf
    ensures ok <==> Walk(old(buf[..ptr + len]), ptr, count).Some?
    ensures ok ==> ptr' == Walk(old(buf[..ptr + len]), ptr, count).value && ptr' + len' == ptr + len
    ensures buf[..ptr + len] == Rewrite(v, old(buf[..ptr + len]), Fields(old(buf[..ptr + len]), ptr, count))
    ensures f == FindAll(v, f0, old(buf[..ptr + len]), Fields(old(buf[..ptr + len]), ptr, count))
    ensures forall k :: ptr + len <= k < buf.Length ==> buf[k] == old(buf[k])
  {
    hide Progress;
    ghost var m := buf[..ptr + len];
    ghost var done: seq<nat> := [];
    var p, left := ptr, len;
    f := f0;
    Begin(v, f0, m, ptr, count);
    for i := 0 to count
      invariant 0 <= p && 0 <= left && p + left == ptr + len
      invariant Progress(v, f0, m, ptr, count, done, p, count - i, f, buf[..ptr + len])
      invariant forall k :: ptr + len <= k < buf.Length ==> buf[k] == old(buf[k])
    {
      var step, at, next := NextRecord(buf, p, left);
      if !step {
        Stop(v, f0, m, ptr, count, done, p, count - i, f, buf[..ptr + len]);
        return false, ptr, len, f;
      }
      Advance(v, f0, m, ptr, count, done, p, count - i, f, buf[..ptr + len]);
      f := VisitRecord(buf, ptr + len, at, v, f);
      done := done + [at];
      p, left := next, ptr + len - next;
    }
    Finish(v, f0, m, ptr, count, done, p, f, buf[..ptr + len]);
    return true, p, left, f;
  }

  /** The records `done` have been visited, `rest` are to come from `p` on, and the message is `cur`. */
  ghost predicate Progress(v: Visitor, f0: Found, m: bytes, i: nat, n: nat, done: seq<nat>, p: int, rest: nat, f: Found,
                           cur: bytes) {
    && i <= p <= |m| && FieldsOf(m, done) && (forall j :: 0 <= j < |done| ==> done[j] + RECORD_LEN <= p)
    && Walk(m, i, n) == Walk(m, p, rest) && Fields(m, i, n) == done + Fields(m, p, rest)
    && cur == Rewrite(v, m, done) && f == FindAll(v, f0, m, done)
  }

  lemma Begin(v: Visitor, f0: Found, m: bytes, i: nat, n: nat)
    requires i <= |m|
    ensures Progress(v, f0, m, i, n, [], i, n, f0, m)
  {
    assert [] + Fields(m, i, n) == Fields(m, i, n);
  }

  lemma Stop(v: Visitor, f0: Found, m: bytes, i: nat, n: nat, done: seq<nat>, p: nat, rest: nat, f: Found, cur: bytes)
    requires rest > 0 && Progress(v, f0, m, i, n, done, p, rest, f, cur) && RecordAt(cur, p).None?
    ensures Walk(m, i, n).None? && cur == Rewrite(v, m, Fields(m, i, n)) && f == FindAll(v, f0, m, Fields(m, i, n))
  {
    hide RecordAt;
    RewriteBefore(v, m, done, p);
    RecordTail(m, cur, p);
    assert done + [] == done;
  }

  lemma {:induction false} Advance(v: Visitor, f0: Found, m: bytes, i: nat, n: nat, done: seq<nat>, p: nat, rest: nat,
                                   f: Found,
                cur: bytes)
    requires rest > 0 && Progress(v, f0, m, i, n, done, p, rest, f, cur) && RecordAt(cur, p).Some?
    ensures var r := RecordAt(cur, p).value;
            Progress(v, f0, m, i, n, done + [r.at], r.next, rest - 1, Find(v, f, cur, r.at), Visit(v, cur, r.at))
  {
    hide RecordAt;
    hide Visit;
    hide Find;
    RewriteBefore(v, m, done, p);
    RecordTail(m, cur, p);
    var r := RecordAt(cur, p).value;
    SameFields(m, cur, r.at);
    FindSame(v, f, m, cur, r.at);
    assert (done + [r.at])[..|done|] == done;
    assert done + ([r.at] + Fields(m, r.next, rest - 1)) == done + [r.at] + Fields(m, r.next, rest - 1);
  }

  lemma Finish(v: Visitor, f0: Found, m: bytes, i: nat, n: nat, done: seq<nat>, p: nat, f: Found, cur: bytes)
    requires Progress(v, f0, m, i, n, done, p, 0, f, cur)
    ensures Walk(m, i, n) == Some(p) && cur == Rewrite(v, m, Fields(m, i, n)) && f == FindAll(v, f0, m, Fields(m, i, n))
  {
    assert done + [] == done;
  }

  lemma FindSame(v: Visitor, f: Found, m: bytes, k: bytes, p: nat)
    requires p + RECORD_LEN <= |m| && p + RECORD_LEN <= |k| && TypeAt(k, p) == TypeAt(m, p)
    requires TtlAt(k, p) == TtlAt(m, p)
    ensures Find(v, f, k, p) == Find(v, f, m, p)
  {
  }

  /** The part of the loop that reads one record. */
  method NextRecord(buf: array<byte>, p: nat, left: nat) returns (ok: bool, at: nat, next: nat)
    requires p + left <= buf.Length
    ensures ok <==> RecordAt(buf[..p + left], p).Some?
    ensures ok ==> RecordAt(buf[..p + left], p) == Some(Rec(at, next))
  {
    var rest;
    ok, at, rest := SkipName(buf, p, left);
    if !ok { return false, 0, 0; }
    var recordLen := RECORD_LEN + Be16(buf[at + 8], buf[at + 9]) as int;
    if rest < recordLen { return false, 0, 0; }
    next := at + recordLen;
  }
}
