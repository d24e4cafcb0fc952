/** A cached reply and its ageing: its own TTL and the TTLs in its message go down
    together, whenever it is looked at. */
module CacheMsgs {
  import opened Bytes
  import opened DnsWalk
  import DnsRecords
  import Msg = DnsMsg

  const I32_MAX := 0x7fff_ffff

  // ---------------------------------------------------------------- one TTL

  /** What ageing by `a` seconds does to the TTL of a record. */
  function Age(ttl: u32, a: int): u32 { NewTtl(UpdateTtl(-a), ttl) }

  /** The signed value that the program sees. */
  function Signed(ttl: u32): int { if ttl <= I32_MAX then ttl as int else ttl as int - 0x1_0000_0000 }

  lemma Wrapped(x: int)
    requires -0x1_0000_0000 <= x < 0x1_0000_0000
    ensures ToI32(x) == if x < -0x8000_0000 then x + 0x1_0000_0000 else if x < 0x8000_0000 then x else x - 0x1_0000_0000
    ensures ToU32(x) == if x < 0 then x + 0x1_0000_0000 else x
  {
  }

  /** A record's TTL goes down to 1 at the lowest; far below zero it wraps. */
  lemma AgeForm(ttl: u32, a: int)
    requires 1 <= a <= I32_MAX
    ensures var s := Signed(ttl) - a;
            Age(ttl, a) == Max(if s < -0x8000_0000 then s + 0x1_0000_0000 else s, 1) && Age(ttl, a) <= I32_MAX
  {
    hide ToI32;
    hide ToU32;
    var s := Signed(ttl) - a;
    Wrapped(ttl as int);
    Wrapped(s);
    Wrapped(Max(ToI32(s), 1));
  }

  /** TTLs as section 8 of RFC 2181 bounds them go down to 1 at the lowest. */
  lemma AgeValue(ttl: u32, a: int)
    requires ttl <= I32_MAX && 1 <= a <= I32_MAX
    ensures Age(ttl, a) == Max(ttl as int - a, 1) && Age(ttl, a) <= I32_MAX
  {
    hide Age;
    AgeForm(ttl, a);
  }

  /** Two steps or one: the same TTL. */
  lemma AgeTwice(ttl: u32, a: int, b: int)
    requires ttl <= I32_MAX && 1 <= a && 1 <= b && a + b <= I32_MAX
    ensures Age(Age(ttl, a), b) == Age(ttl, a + b)
  {
    hide Age;
    AgeValue(ttl, a);
    AgeValue(Age(ttl, a), b);
    AgeValue(ttl, a + b);
  }

  /** Beyond those bounds it does matter in how many steps a record ages: a TTL of
      2^32 - 2 is 1 after one second and one more big step, but 2^31 - 1 after a
      single step of the same length. */
  lemma AgeTwiceDiffers()
    ensures Age(Age(0xffff_fffe, 1), 0x7fff_fffe) == 1 && Age(0xffff_fffe, 0x7fff_ffff) == 0x7fff_ffff
  {
    hide Age;
    AgeForm(0xffff_fffe, 1);
    AgeForm(1, 0x7fff_fffe);
    AgeForm(0xffff_fffe, 0x7fff_ffff);
  }

  ghost predicate StepsAgree(ttl: u32) {
    forall a, b {:trigger Age(Age(ttl, a), b)} :: 1 <= a && 1 <= b && a + b <= I32_MAX ==>
          Age(Age(ttl, a), b) == Age(ttl, a + b)
  }

  /** Exactly for the TTLs strictly between 2^31 and 2^32 - 1 the steps matter. */
  lemma StepsAgreeWhen(ttl: u32)
    ensures StepsAgree(ttl) <==> ttl <= 0x8000_0000 || ttl == 0xffff_ffff
  {
    hide Age;
    if ttl <= I32_MAX {
      forall a, b | 1 <= a && 1 <= b && a + b <= I32_MAX ensures Age(Age(ttl, a), b) == Age(ttl, a + b) {
        AgeTwice(ttl, a, b);
      }
    } else if ttl == 0x8000_0000 || ttl == 0xffff_ffff {
      forall a, b | 1 <= a && 1 <= b && a + b <= I32_MAX ensures Age(Age(ttl, a), b) == Age(ttl, a + b) {
        AgeEdge(ttl, a, b);
      }
    } else {
      var b := ttl as int - 0x8000_0000;
      AgeForm(ttl, 1);
      AgeForm(1, b);
      AgeForm(ttl, 1 + b);
      assert Age(Age(ttl, 1), b) == 1 && Age(ttl, 1 + b) == I32_MAX;
    }
  }

  lemma AgeEdge(ttl: u32, a: int, b: int)
    requires (ttl == 0x8000_0000 || ttl == 0xffff_ffff) && 1 <= a && 1 <= b && a + b <= I32_MAX
    ensures Age(Age(ttl, a), b) == Age(ttl, a + b)
  {
    hide Age;
    AgeForm(ttl, a);
    AgeForm(Age(ttl, a), b);
    AgeForm(ttl, a + b);
  }

  // ---------------------------------------------------------------- one message

  /** Every record other than OPT has a TTL within the bounds. */
  ghost predicate TtlsBounded(m: bytes, ps: seq<nat>)
    requires FieldsOf(m, ps)
  {
    forall j :: 0 <= j < |ps| ==> TypeAt(m, ps[j]) == TYPE_OPT || TtlAt(m, ps[j]) <= I32_MAX
  }

  /** Every record other than OPT has a TTL whose ageing does not depend on the number of steps. */
  ghost predicate TtlsSteady(m: bytes, ps: seq<nat>)
    requires FieldsOf(m, ps)
  {
    forall j :: 0 <= j < |ps| ==> TypeAt(m, ps[j]) == TYPE_OPT || StepsAgree(TtlAt(m, ps[j]))
  }

  lemma {:induction false} BoundedSteady(m: bytes, ps: seq<nat>)
    requires FieldsOf(m, ps) && TtlsBounded(m, ps)
    ensures TtlsSteady(m, ps)
  {
    hide TtlAt;
    hide StepsAgree;
    forall j | 0 <= j < |ps| && TypeAt(m, ps[j]) != TYPE_OPT ensures StepsAgree(TtlAt(m, ps[j])) {
      StepsAgreeWhen(TtlAt(m, ps[j]));
    }
  }

  /** Messages that differ at most in TTLs, and have the same TTLs, are equal. */
  lemma SameTtls(r: bytes, s: bytes, ps: seq<nat>)
    requires |r| == |s| && FieldsOf(r, ps)
    requires forall x :: 0 <= x < |r| && NoTtl(ps, x) ==> r[x] == s[x]
    requires forall j :: 0 <= j < |ps| ==> TtlAt(r, ps[j]) == TtlAt(s, ps[j])
    ensures r == s
  {
    hide TtlAt;
    forall x | 0 <= x < |r| ensures r[x] == s[x] {
      if !NoTtl(ps, x) {
        var j :| 0 <= j < |ps| && ps[j] + 4 <= x < ps[j] + 8;
        SameByte(r, s, ps[j], x);
      }
    }
  }

  lemma SameByte(r: bytes, s: bytes, p: nat, x: nat)
    requires |r| == |s| && p + RECORD_LEN <= |r| && TtlAt(r, p) == TtlAt(s, p) && p + 4 <= x < p + 8
    ensures r[x] == s[x]
  {
    hide Be32;
    hide PutBe32;
    var b, c := [r[p + 4], r[p + 5], r[p + 6], r[p + 7]], [s[p + 4], s[p + 5], s[p + 6], s[p + 7]];
    Be32Digits(b[0], b[1], b[2], b[3]);
    Be32Digits(c[0], c[1], c[2], c[3]);
    assert b[x - p - 4] == c[x - p - 4];
  }

  /** All records of a message aged by `a` seconds. */
  function AgeAll(m: bytes, ps: seq<nat>, a: int): (r: bytes)
    requires FieldsOf(m, ps)
    ensures |r| == |m|
  {
    Rewrite(UpdateTtl(-a), m, ps)
  }

  lemma AgeAllKeepsBounds(m: bytes, ps: seq<nat>, a: int)
    requires FieldsOf(m, ps) && Spread(ps) && TtlsBounded(m, ps) && 1 <= a <= I32_MAX
    ensures TtlsBounded(AgeAll(m, ps, a), ps)
  {
    hide Rewrite;
    hide NewTtl;
    hide TypeAt;
    hide TtlAt;
    forall j | 0 <= j < |ps| ensures TypeAt(AgeAll(m, ps, a), ps[j]) == TYPE_OPT
        || TtlAt(AgeAll(m, ps, a), ps[j]) <= I32_MAX {
      RewriteTtl(UpdateTtl(-a), m, ps, j);
      if TypeAt(m, ps[j]) != TYPE_OPT { AgeValue(TtlAt(m, ps[j]), a); }
    }
  }

  lemma {:induction false} AgeAllTwice(m: bytes, ps: seq<nat>, a: int, b: int)
    requires FieldsOf(m, ps) && Spread(ps) && TtlsSteady(m, ps) && 1 <= a && 1 <= b && a + b <= I32_MAX
    ensures AgeAll(AgeAll(m, ps, a), ps, b) == AgeAll(m, ps, a + b)
  {
    hide Rewrite;
    hide NewTtl;
    hide TypeAt;
    hide TtlAt;
    var k := AgeAll(m, ps, a);
    var r, s := AgeAll(k, ps, b), AgeAll(m, ps, a + b);
    forall x | 0 <= x < |r| && NoTtl(ps, x) ensures r[x] == s[x] {
      RewriteKeeps(UpdateTtl(-a), m, ps, x);
      RewriteKeeps(UpdateTtl(-b), k, ps, x);
      RewriteKeeps(UpdateTtl(-(a + b)), m, ps, x);
    }
    forall j | 0 <= j < |ps| ensures TtlAt(r, ps[j]) == TtlAt(s, ps[j]) {
      AgedTwiceAt(m, ps, a, b, j);
    }
    SameTtls(r, s, ps);
  }

  /** The TTL of one record after two steps, and after one. */
  lemma {:induction false} AgedTwiceAt(m: bytes, ps: seq<nat>, a: int, b: int, j: nat)
    requires FieldsOf(m, ps) && Spread(ps) && j < |ps|
    ensures var k, t := AgeAll(m, ps, a), TtlAt(m, ps[j]);
            if TypeAt(m, ps[j]) == TYPE_OPT then
              TtlAt(AgeAll(k, ps, b), ps[j]) == t && TtlAt(AgeAll(m, ps, a + b), ps[j]) == t
            else
              && TtlAt(AgeAll(k, ps, b), ps[j]) == Age(Age(t, a), b)
              && TtlAt(AgeAll(m, ps, a + b), ps[j]) == Age(t, a + b)
  {
    hide Rewrite;
    hide NewTtl;
    hide TypeAt;
    hide TtlAt;
    RewriteTtl(UpdateTtl(-a), m, ps, j);
    RewriteTtl(UpdateTtl(-b), AgeAll(m, ps, a), ps, j);
    RewriteTtl(UpdateTtl(-(a + b)), m, ps, j);
  }

  // ---------------------------------------------------------------- one entry

  /** What ageing reads and writes of an entry. */
  datatype State = State(updateTime: int, ttl: int, msg: bytes)

  ghost predicate Sound(s: State, qnamelen: nat) {
    Msg.Walkable(s.msg, qnamelen) && TtlsBounded(s.msg, Msg.RecordFields(s.msg, qnamelen))
  }

  /** update_ttl at time `now` */
  function After(s: State, qnamelen: nat, now: int): State
    requires Msg.HasHeader(s.msg) && Msg.MinLen(qnamelen) <= |s.msg|
  {
    if now <= s.updateTime then s
    else
      var a := now - s.updateTime;
      State(now, s.ttl - a, AgeAll(s.msg, Msg.RecordFields(s.msg, qnamelen), a))
  }

  /** `a` seconds are taken from the TTL of each record other than OPT (41), of which one is left at least. */
  ghost predicate AgedBy(rs: seq<DnsRecords.Record>, ss: seq<DnsRecords.Record>, a: int) {
    && |ss| == |rs|
    && forall j :: 0 <= j < |rs| ==> ss[j].kind == rs[j].kind && AgedTtl(rs[j], ss[j].ttl, a)
  }

  ghost predicate AgedTtl(r: DnsRecords.Record, ttl: u32, a: int) {
    && (r.kind == 41 ==> ttl == r.ttl)
    && (r.kind != 41 && r.ttl < 0x8000_0000 ==> ttl == if r.ttl > a then r.ttl - a else 1)
  }

  lemma AgedTtlIs(r: DnsRecords.Record, a: int)
    requires 1 <= a <= 0x7fff_ffff
    ensures AgedTtl(r, if r.kind == 41 then r.ttl else NewTtl(UpdateTtl(-a), r.ttl), a)
  {
    hide NewTtl;
    DnsRecords.NewTtlMeans(r.ttl, 0, 0, -a);
  }

  /** The records at `i` of `m` are those of `k`, older by `a` seconds; no byte outside their TTLs differs. */
  ghost predicate AgedMessage(m: bytes, k: bytes, i: nat, rs: seq<DnsRecords.Record>, ss: seq<DnsRecords.Record>,
                              a: int)
    requires DnsRecords.AllOk(rs)
  {
    && |k| == |m| && AgedBy(rs, ss, a)
    && DnsRecords.AllOk(ss) && DnsRecords.Stands(k, i, DnsRecords.All(ss))
    && DnsRecords.Places(i, ss) == DnsRecords.Places(i, rs)
    && forall x :: 0 <= x < |m| && NoTtl(DnsRecords.Places(i, rs), x) ==> k[x] == m[x]
  }

  lemma {:induction false} AgeAllRecords(m: bytes, i: nat, rs: seq<DnsRecords.Record>, a: int)
    returns (ss: seq<DnsRecords.Record>)
    requires i <= |m| && DnsRecords.AllOk(rs) && DnsRecords.Stands(m, i, DnsRecords.All(rs)) && 1 <= a <= 0x7fff_ffff
    ensures FieldsOf(m, DnsRecords.Places(i, rs))
    ensures AgedMessage(m, AgeAll(m, DnsRecords.Places(i, rs), a), i, rs, ss, a)
  {
    hide DnsRecords.All;
    hide DnsRecords.AllOk;
    hide DnsRecords.Stands;
    hide DnsRecords.Places;
    hide Rewrite;
    hide NewTtl;
    hide NoTtl;
    hide AgedTtl;
    ss := DnsRecords.RewriteRecords(UpdateTtl(-a), m, i, rs);
    forall j | 0 <= j < |rs| ensures AgedTtl(rs[j], ss[j].ttl, a) { AgedTtlIs(rs[j], a); }
  }

  /** An update in terms of records: a clock that has not moved on changes nothing;
      otherwise the elapsed seconds are taken from the entry's TTL and from that of each
      record, and the rest of the message stays. */
  lemma {:induction false} AfterRecords(s: State, qnamelen: nat, now: int, rs: seq<DnsRecords.Record>)
    requires Msg.HasHeader(s.msg) && 16 + qnamelen <= |s.msg| && now - s.updateTime <= 0x7fff_ffff
    requires DnsRecords.AllOk(rs) && DnsRecords.Stands(s.msg, 16 + qnamelen, DnsRecords.All(rs))
    requires |rs| == s.msg[6] as int * 256 + s.msg[7] as int + (s.msg[8] as int * 256 + s.msg[9] as int)
                     + (s.msg[10] as int * 256 + s.msg[11] as int)
    ensures var t, a, i := After(s, qnamelen, now), now - s.updateTime, 16 + qnamelen;
            if a <= 0 then t == s
            else t.updateTime == now && t.ttl == s.ttl - a && exists ss :: AgedMessage(s.msg, t.msg, i, rs, ss, a)
  {
    hide DnsRecords.All;
    hide DnsRecords.AllOk;
    hide DnsRecords.Stands;
    hide DnsRecords.Places;
    hide DnsRecords.Reads;
    hide Walk;
    hide Fields;
    hide AgeAll;
    hide AgedMessage;
    if now > s.updateTime {
      DnsRecords.WalkBuilt(s.msg, 16 + qnamelen, rs);
      var ss := AgeAllRecords(s.msg, 16 + qnamelen, rs, now - s.updateTime);
    }
  }

  lemma {:induction false} AfterSound(s: State, qnamelen: nat, now: int)
    requires Sound(s, qnamelen) && now - s.updateTime <= I32_MAX
    ensures Sound(After(s, qnamelen, now), qnamelen)
    ensures Msg.RecordFields(After(s, qnamelen, now).msg, qnamelen) == Msg.RecordFields(s.msg, qnamelen)
  {
    hide Msg.Walkable;
    hide Rewrite;
    WalkableHeader(s.msg, qnamelen);
    if now > s.updateTime {
      var a, ps := now - s.updateTime, Msg.RecordFields(s.msg, qnamelen);
      Msg.AgedWalk(UpdateTtl(-a), s.msg, qnamelen);
      FieldsSpread(s.msg, Msg.MinLen(qnamelen), Msg.RecordsCount(s.msg));
      AgeAllKeepsBounds(s.msg, ps, a);
    }
  }

  lemma WalkableHeader(m: bytes, qnamelen: nat)
    requires Msg.Walkable(m, qnamelen)
    ensures Msg.HasHeader(m) && Msg.MinLen(qnamelen) <= |m|
  {
  }

  ghost predicate Steady(s: State, qnamelen: nat)
    requires Msg.HasHeader(s.msg) && Msg.MinLen(qnamelen) <= |s.msg|
  {
    TtlsSteady(s.msg, Msg.RecordFields(s.msg, qnamelen))
  }

  /** A sound entry's TTLs are well within the range for which steps do not matter. */
  lemma {:induction false} SoundSteady(s: State, qnamelen: nat)
    requires Sound(s, qnamelen)
    ensures Msg.HasHeader(s.msg) && Msg.MinLen(qnamelen) <= |s.msg| && Steady(s, qnamelen)
  {
    hide TtlsSteady;
    BoundedSteady(s.msg, Msg.RecordFields(s.msg, qnamelen));
  }

  /** Two updates are one update at the later of the two times. */
  lemma {:induction false} AfterAfter(s: State, qnamelen: nat, t: int, u: int)
    requires Msg.HasHeader(s.msg) && Msg.MinLen(qnamelen) <= |s.msg| && Steady(s, qnamelen)
    requires t - s.updateTime <= I32_MAX && u - s.updateTime <= I32_MAX
    ensures Msg.MinLen(qnamelen) <= |After(s, qnamelen, t).msg|
    ensures After(After(s, qnamelen, t), qnamelen, u) == After(s, qnamelen, Max(t, u))
  {
    hide TtlsSteady;
    hide AgeAll;
    if s.updateTime < t < u {
      AfterTwice(s, qnamelen, t - s.updateTime, u - t);
      AgeAllTwice(s.msg, Msg.RecordFields(s.msg, qnamelen), t - s.updateTime, u - t);
    }
  }

  /** The records stand where they stood. */
  lemma {:induction false} AfterTwice(s: State, qnamelen: nat, a: int, b: int)
    requires Msg.HasHeader(s.msg) && Msg.MinLen(qnamelen) <= |s.msg| && 1 <= a && 1 <= b
    ensures var ps := Msg.RecordFields(s.msg, qnamelen);
            && Spread(ps)
            && After(After(s, qnamelen, s.updateTime + a), qnamelen, s.updateTime + a + b)
               == State(s.updateTime + a + b, s.ttl - a - b, AgeAll(AgeAll(s.msg, ps, a), ps, b))
  {
    hide Rewrite;
    Msg.AgedWalk(UpdateTtl(-a), s.msg, qnamelen);
    FieldsSpread(s.msg, Msg.MinLen(qnamelen), Msg.RecordsCount(s.msg));
  }

  /** The state after updates at all these clock readings. */
  function AfterAll(s: State, qnamelen: nat, times: seq<int>): (r: State)
    requires Msg.HasHeader(s.msg) && Msg.MinLen(qnamelen) <= |s.msg|
    ensures |r.msg| == |s.msg|
  {
    if times == [] then s else After(AfterAll(s, qnamelen, times[..|times| - 1]), qnamelen, times[|times| - 1])
  }

  /** The latest of the readings and of the entry's own time. */
  function Latest(t: int, times: seq<int>): int {
    if times == [] then t else Max(Latest(t, times[..|times| - 1]), times[|times| - 1])
  }

  /** Ageing is path-independent: any updates, under any clock readings, are one
      update at the latest time seen. */
  lemma {:induction false} PathIndependent(s: State, qnamelen: nat, times: seq<int>)
    requires Msg.HasHeader(s.msg) && Msg.MinLen(qnamelen) <= |s.msg| && Steady(s, qnamelen)
    requires Seen(s.updateTime, times)
    ensures AfterAll(s, qnamelen, times) == After(s, qnamelen, Latest(s.updateTime, times))
    ensures Latest(s.updateTime, times) - s.updateTime <= I32_MAX
    decreases |times|
  {
    hide Steady;
    if times == [] {
    } else {
      var n := |times| - 1;
      PathIndependent(s, qnamelen, times[..n]);
      AfterAfter(s, qnamelen, Latest(s.updateTime, times[..n]), times[n]);
    }
  }

  /** Clock readings at most 2^31 - 1 seconds ahead. */
  ghost predicate Seen(t: int, times: seq<int>) { forall i :: 0 <= i < |times| ==> times[i] - t <= I32_MAX }

  ghost predicate PathFree(s: State, qnamelen: nat)
    requires Msg.HasHeader(s.msg) && Msg.MinLen(qnamelen) <= |s.msg|
  {
    forall times {:trigger AfterAll(s, qnamelen, times)} :: Seen(s.updateTime, times) ==>
      AfterAll(s, qnamelen, times) == After(s, qnamelen, Latest(s.updateTime, times))
  }

  /** Exactly for the entries all of whose TTLs are steady it does not matter when
      they are updated; that is, TTLs up to 2^31, or 2^32 - 1. */
  lemma {:induction false} PathFreeWhen(s: State, qnamelen: nat)
    requires Msg.HasHeader(s.msg) && Msg.MinLen(qnamelen) <= |s.msg|
    ensures PathFree(s, qnamelen)
            <==> forall p <- Msg.RecordFields(s.msg, qnamelen) ::
                   TypeAt(s.msg, p) == TYPE_OPT || TtlAt(s.msg, p) <= 0x8000_0000 || TtlAt(s.msg, p) == 0xffff_ffff
  {
    hide TypeAt;
    hide TtlAt;
    hide StepsAgree;
    hide AfterAll;
    hide After;
    hide PathFree;
    var ps := Msg.RecordFields(s.msg, qnamelen);
    forall j | 0 <= j < |ps| ensures
        StepsAgree(TtlAt(s.msg, ps[j])) <==> TtlAt(s.msg, ps[j]) <= 0x8000_0000 || TtlAt(s.msg, ps[j]) == 0xffff_ffff {
      StepsAgreeWhen(TtlAt(s.msg, ps[j]));
    }
    if Steady(s, qnamelen) {
      SteadyPathFree(s, qnamelen);
    } else {
      var j :| 0 <= j < |ps| && TypeAt(s.msg, ps[j]) != TYPE_OPT && !StepsAgree(TtlAt(s.msg, ps[j]));
      UnsteadyPath(s, qnamelen, j);
    }
  }

  lemma {:induction false} SteadyPathFree(s: State, qnamelen: nat)
    requires Msg.HasHeader(s.msg) && Msg.MinLen(qnamelen) <= |s.msg| && Steady(s, qnamelen)
    ensures PathFree(s, qnamelen)
  {
    hide Steady;
    hide AfterAll;
    hide After;
    forall times: seq<int> | Seen(s.updateTime, times)
      ensures AfterAll(s, qnamelen, times) == After(s, qnamelen, Latest(s.updateTime, times))
    {
      PathIndependent(s, qnamelen, times);
    }
  }

  /** For a record whose steps matter there are two clock readings that show it. */
  lemma {:induction false} UnsteadyPath(s: State, qnamelen: nat, j: nat)
    requires Msg.HasHeader(s.msg) && Msg.MinLen(qnamelen) <= |s.msg|
    requires var ps := Msg.RecordFields(s.msg, qnamelen);
             j < |ps| && TypeAt(s.msg, ps[j]) != TYPE_OPT && !StepsAgree(TtlAt(s.msg, ps[j]))
    ensures !PathFree(s, qnamelen)
  {
    hide TypeAt;
    hide TtlAt;
    hide Age;
    hide AgeAll;
    hide After;
    var ps := Msg.RecordFields(s.msg, qnamelen);
    var t := TtlAt(s.msg, ps[j]);
    var a, b :| 1 <= a && 1 <= b && a + b <= I32_MAX && Age(Age(t, a), b) != Age(t, a + b);
    AfterTwice(s, qnamelen, a, b);
    AgedTwiceAt(s.msg, ps, a, b, j);
    var t0 := s.updateTime;
    TwoReadings(s, qnamelen, t0 + a, t0 + a + b);
    OneStep(s, qnamelen, a + b);
    assert Seen(t0, [t0 + a, t0 + a + b]);
    assert AfterAll(s, qnamelen, [t0 + a, t0 + a + b]) != After(s, qnamelen, t0 + a + b);
  }

  lemma {:induction false} OneStep(s: State, qnamelen: nat, a: int)
    requires Msg.HasHeader(s.msg) && Msg.MinLen(qnamelen) <= |s.msg| && 1 <= a
    ensures After(s, qnamelen, s.updateTime + a).msg == AgeAll(s.msg, Msg.RecordFields(s.msg, qnamelen), a)
  {
  }

  lemma {:induction false} TwoReadings(s: State, qnamelen: nat, t: int, u: int)
    requires Msg.HasHeader(s.msg) && Msg.MinLen(qnamelen) <= |s.msg| && s.updateTime < t < u
    ensures Msg.MinLen(qnamelen) <= |After(s, qnamelen, t).msg|
    ensures AfterAll(s, qnamelen, [t, u]) == After(After(s, qnamelen, t), qnamelen, u)
    ensures Latest(s.updateTime, [t, u]) == u
  {
    hide After;
    assert [t, u][..1] == [t] && [t][..0] == [];
    assert AfterAll(s, qnamelen, [t]) == After(AfterAll(s, qnamelen, []), qnamelen, t);
    assert Latest(s.updateTime, [t]) == Max(Latest(s.updateTime, []), t);
  }

  lemma SoundHeader(s: State, qnamelen: nat)
    requires Sound(s, qnamelen)
    ensures Msg.HasHeader(s.msg) && Msg.MinLen(qnamelen) <= |s.msg|
  {
  }

  // ---------------------------------------------------------------- the smallest TTL

  /** `ttl` is the smallest TTL of the records other than OPT, and there is one. */
  ghost predicate Smallest(m: bytes, ps: seq<nat>, ttl: int)
    requires FieldsOf(m, ps)
  {
    && (exists j :: 0 <= j < |ps| && TypeAt(m, ps[j]) != TYPE_OPT && ToI32(TtlAt(m, ps[j])) == ttl)
    && forall j :: 0 <= j < |ps| && TypeAt(m, ps[j]) != TYPE_OPT ==> ttl <= ToI32(TtlAt(m, ps[j]))
  }

  /** With a positive smallest TTL, all TTLs are within the bounds. */
  lemma {:induction false} SmallestBounds(m: bytes, ps: seq<nat>, ttl: int)
    requires FieldsOf(m, ps) && Smallest(m, ps, ttl) && ttl >= 0
    ensures TtlsBounded(m, ps)
  {
    hide TypeAt;
    hide TtlAt;
    forall j | 0 <= j < |ps| && TypeAt(m, ps[j]) != TYPE_OPT ensures TtlAt(m, ps[j]) <= I32_MAX {
      assert ttl <= ToI32(TtlAt(m, ps[j]));
    }
  }

  /** As long as the entry's TTL stays positive it stays the smallest one. */
  lemma {:induction false} SmallestAged(m: bytes, ps: seq<nat>, ttl: int, a: int)
    requires FieldsOf(m, ps) && Spread(ps) && Smallest(m, ps, ttl) && 1 <= a && ttl - a >= 1
    ensures Smallest(AgeAll(m, ps, a), ps, ttl - a)
  {
    hide AgeAll;
    hide TtlsBounded;
    hide Spread;
    hide Rewrite;
    hide NewTtl;
    hide TypeAt;
    hide TtlAt;
    SmallestBounds(m, ps, ttl);
    var r := AgeAll(m, ps, a);
    var w :| 0 <= w < |ps| && TypeAt(m, ps[w]) != TYPE_OPT && ToI32(TtlAt(m, ps[w])) == ttl;
    AgedOne(m, ps, a, w);
    forall j | 0 <= j < |ps| && TypeAt(r, ps[j]) != TYPE_OPT ensures ttl - a <= ToI32(TtlAt(r, ps[j])) {
      AgedOne(m, ps, a, j);
    }
    assert TypeAt(r, ps[w]) != TYPE_OPT && ToI32(TtlAt(r, ps[w])) == ttl - a;
  }

  lemma AgedOne(m: bytes, ps: seq<nat>, a: int, j: nat)
    requires FieldsOf(m, ps) && Spread(ps) && TtlsBounded(m, ps) && 1 <= a <= I32_MAX && j < |ps|
    ensures TypeAt(AgeAll(m, ps, a), ps[j]) == TypeAt(m, ps[j])
    ensures TypeAt(m, ps[j]) != TYPE_OPT ==> ToI32(TtlAt(AgeAll(m, ps, a), ps[j])) == Max(TtlAt(m, ps[j]) as int - a, 1)
  {
    hide Rewrite;
    hide NewTtl;
    hide TypeAt;
    hide TtlAt;
    RewriteTtl(UpdateTtl(-a), m, ps, j);
    if TypeAt(m, ps[j]) != TYPE_OPT { AgeValue(TtlAt(m, ps[j]), a); }
  }

  // ---------------------------------------------------------------- the entry

  predicate Fits32(x: int) { -0x8000_0000 <= x <= I32_MAX }

  /** Division that rounds towards zero. */
  function DivTrunc(x: int, y: int): int
    requires y > 0
  {
    if x >= 0 then x / y else -(-x / y)
  }

  /** The quotient times the divisor is next to the dividend, on the side of zero. */
  lemma DivTruncMeans(x: int)
    ensures x >= 0 ==> 100 * DivTrunc(x, 100) <= x < 100 * DivTrunc(x, 100) + 100
    ensures x <= 0 ==> 100 * DivTrunc(x, 100) - 100 < x <= 100 * DivTrunc(x, 100)
  {
  }

  class CacheMsg {
    var updateTime: int
    var hashv: u32
    var ttl: int
    var ttlR: int // refresh when the TTL is this or less
    var msg: array<byte>
    var qnamelen: nat
    var addedIp: bool

    ghost function Abs(): State
      reads this, msg
    {
      State(updateTime, ttl, msg[..])
    }

    ghost predicate Valid()
      reads this, msg
    {
      Sound(Abs(), qnamelen)
    }

    /** The entry's TTL is the smallest one in its message, while it is positive. */
    ghost predicate Tight()
      requires Valid()
      reads this, msg
    {
      SoundHeader(Abs(), qnamelen);
      ttl >= 1 ==> Smallest(msg[..], Msg.RecordFields(msg[..], qnamelen), ttl)
    }

    /** new: the message is copied, and not looked at. `refresh` is a percentage; of
        the limit nothing is said when its 32-bit product overflows. */
    constructor (inMsg: bytes, qnamelen: nat, ttl: int, hashv: u32, now: int, refresh: byte)
      ensures Abs() == State(now, ttl, inMsg) && this.qnamelen == qnamelen && this.hashv == hashv && addedIp
      ensures fresh(msg) && (Fits32(ttl * refresh as int) ==> ttlR == DivTrunc(ttl * refresh as int, 100))
      ensures Sound(State(now, ttl, inMsg), qnamelen) ==> Valid()
    {
      this.qnamelen, this.ttl, this.hashv, updateTime, addedIp := qnamelen, ttl, hashv, now, true;
      var product := ttl * refresh as int;
      var limit: int := *;
      if Fits32(product) { limit := DivTrunc(product, 100); }
      ttlR := limit;
      msg := new byte[|inMsg|](i requires 0 <= i < |inMsg| => inMsg[i]);
      new;
      assert msg[..] == inMsg;
    }

    function CalcTtlChange(now: int): int
      reads this
    {
      -(if now > updateTime then now - updateTime else 0)
    }

    /** get_ttl foretells what update_ttl returns at the same time; none if the
        32-bit sum overflows. */
    function GetTtl(now: int): (r: Option<int>)
      requires Msg.MinLen(qnamelen) <= msg.Length
      reads this, msg
      ensures var t := After(Abs(), qnamelen, now).ttl;
              r == if now <= updateTime || Fits32(t) then Some(t) else None
    {
      var change := CalcTtlChange(now);
      if change == 0 || Fits32(ttl + change) then Some(ttl + change) else None
    }

    /** update_ttl. The clock must not be more than 2^31 - 1 seconds ahead. `fits`
        says whether the 32-bit sum does not overflow, and `asserts` whether the
        assertions of dns_update_ttl hold: always for an entry that is valid, and
        for others exactly if their records fill the message. */
    method UpdateTtl(now: int) returns (r: int, asserts: bool, fits: bool)
      requires Msg.MinLen(qnamelen) <= msg.Length && now - updateTime <= I32_MAX
      modifies this, msg
      ensures msg == old(msg) && qnamelen == old(qnamelen) && hashv == old(hashv)
      ensures ttlR == old(ttlR) && addedIp == old(addedIp)
      ensures fits <==> now <= old(updateTime) || Fits32(After(old(Abs()), qnamelen, now).ttl)
      ensures fits ==> Abs() == After(old(Abs()), qnamelen, now) && r == ttl
      ensures fits ==> (asserts <==> now <= old(updateTime) || Msg.Walkable(old(msg[..]), qnamelen))
      ensures !fits ==> !asserts && msg[..] == old(msg[..])
      ensures old(Valid()) ==> Valid() && (fits ==> asserts && (old(Tight()) ==> Tight()))
    {
      hide Msg.Walkable;
      hide TtlsBounded;
      hide Rewrite;
      ghost var s := Abs();
      if Valid() { AfterSound(s, qnamelen, now); }
      var change := CalcTtlChange(now);
      asserts, fits := true, true;
      if change != 0 {
        updateTime := now;
        if !Fits32(ttl + change) { return ttl, false, false; }
        ttl := ttl + change;
        assert msg[..msg.Length] == msg[..] == s.msg;
        asserts := Msg.UpdateTtl(msg, msg.Length, qnamelen, change);
        assert msg[..] == msg[..msg.Length];
      }
      if old(Valid()) && old(Tight()) { TightAfter(s, qnamelen, now); }
      r := ttl;
    }
  }

  /** An entry that was made with a TTL of at least zero never overflows, however
      often it is looked at, as long as the clock is at most 2^31 - 1 seconds ahead. */
  lemma {:induction false} NeverOverflows(s: State, qnamelen: nat, times: seq<int>, now: int)
    requires Sound(s, qnamelen) && 0 <= s.ttl <= I32_MAX && Seen(s.updateTime, times) && now - s.updateTime <= I32_MAX
    ensures Msg.HasHeader(s.msg) && Msg.MinLen(qnamelen) <= |s.msg|
    ensures Fits32(After(AfterAll(s, qnamelen, times), qnamelen, now).ttl)
  {
    hide AgeAll;
    SoundSteady(s, qnamelen);
    PathIndependent(s, qnamelen, times);
    LatestFrom(s.updateTime, times);
  }

  lemma {:induction false} LatestFrom(t: int, times: seq<int>)
    ensures Latest(t, times) >= t
  {
    if times == [] {
    } else {
      LatestFrom(t, times[..|times| - 1]);
    }
  }

  lemma Times(x: int, y: int, r: int)
    requires x <= y && r >= 0
    ensures x * r <= y * r
  {
  }

  lemma DivisionBounds(r: int)
    requires r > 0
    ensures I32_MAX / r * r <= I32_MAX < (I32_MAX / r + 1) * r
  {
  }

  lemma Hundredth(x: int, r: int)
    requires x >= 0 && 0 <= r <= 100
    ensures 0 <= x * r <= x * 100
  {
    Times(0, x, r);
    Times(r, 100, x);
  }

  /** When the refresh limit of a new entry does not overflow; it then lies within the TTL. */
  lemma RefreshFits(ttl: int, refresh: byte)
    requires 1 <= ttl <= I32_MAX && refresh > 0
    ensures Fits32(ttl * refresh as int) <==> ttl <= I32_MAX / refresh as int
    ensures refresh <= 100 ==> 0 <= DivTrunc(ttl * refresh as int, 100) <= ttl
  {
    var r := refresh as int;
    DivisionBounds(r);
    if ttl <= I32_MAX / r { Times(ttl, I32_MAX / r, r); } else { Times(I32_MAX / r + 1, ttl, r); }
    Times(0, ttl, r);
    if refresh <= 100 { Hundredth(ttl, r); }
  }

  lemma {:induction false} TightAfter(s: State, qnamelen: nat, now: int)
    requires Sound(s, qnamelen) && Msg.HasHeader(s.msg) && Msg.MinLen(qnamelen) <= |s.msg|
    requires now - s.updateTime <= I32_MAX
    requires s.ttl >= 1 ==> Smallest(s.msg, Msg.RecordFields(s.msg, qnamelen), s.ttl)
    ensures var t := After(s, qnamelen, now);
            Msg.HasHeader(t.msg) && Msg.MinLen(qnamelen) <= |t.msg|
                && (t.ttl >= 1 ==> Smallest(t.msg, Msg.RecordFields(t.msg, qnamelen), t.ttl))
  {
    hide Sound;
    hide Smallest;
    AfterSound(s, qnamelen, now);
    FieldsSpread(s.msg, Msg.MinLen(qnamelen), Msg.RecordsCount(s.msg));
    if now > s.updateTime && After(s, qnamelen, now).ttl >= 1 {
      SmallestAged(s.msg, Msg.RecordFields(s.msg, qnamelen), s.ttl, now - s.updateTime);
    }
  }

  /** The records' TTLs after dns_get_ttl, and its result. */
  lemma EntryTtls(m: bytes, ps: seq<nat>, nodataTtl: int, min: int, max: int)
    requires FieldsOf(m, ps) && Spread(ps) && -0x8000_0000 <= min <= I32_MAX && -0x8000_0000 <= max <= I32_MAX
    ensures var f, r := FindAll(GetTtl(min, max), Found(nodataTtl, true), m, ps), Rewrite(GetTtl(min, max), m, ps);
            FieldsOf(r, ps) && (if f.nodata then f.ttl == nodataTtl && TtlsBounded(r, ps) else Smallest(r, ps, f.ttl))
  {
    hide FindAll;
    hide Rewrite;
    hide TypeAt;
    hide TtlAt;
    var f, r := FindAll(GetTtl(min, max), Found(nodataTtl, true), m, ps), Rewrite(GetTtl(min, max), m, ps);
    Msg.SmallestTtl(m, ps, nodataTtl, min, max);
    forall j | 0 <= j < |ps| ensures TypeAt(r, ps[j]) == TypeAt(m, ps[j]) {
      RewriteTtl(GetTtl(min, max), m, ps, j);
    }
  }

  /** The end of cache.add, for a reply that has been checked: it becomes an entry
      unless it has no effective TTL. */
  method NewEntry(buf: array<byte>, len: nat, qnamelen: nat, nodataTtl: int, min: int, max: int, hashv: u32, now: int,
                  refresh: byte)
    returns (e: CacheMsg?)
    requires Msg.MinLen(qnamelen) <= len <= buf.Length && (Msg.Good(buf[..len]) ==> Msg.Walkable(buf[..len], qnamelen))
    requires -0x8000_0000 <= min <= I32_MAX && -0x8000_0000 <= max <= I32_MAX
    modifies buf
    ensures var ttl := Msg.TtlResult(old(buf[..len]), qnamelen, nodataTtl, min, max);
            (e == null <==> ttl <= 0) && (e != null ==> e.ttl == ttl)
    ensures !Msg.Good(old(buf[..len])) ==> e == null && buf[..len] == old(buf[..len])
    ensures Msg.Good(old(buf[..len])) ==> buf[..len] == Msg.Aged(GetTtl(min, max), old(buf[..len]), qnamelen)
    ensures e != null ==> fresh(e) && e.Valid() && e.updateTime == now && e.msg[..] == buf[..len]
    ensures e != null ==>
              e.qnamelen == qnamelen && e.hashv == hashv && e.addedIp
              && (Fits32(e.ttl * refresh as int) ==> e.ttlR == DivTrunc(e.ttl * refresh as int, 100))
    ensures e != null ==> e.Tight() || (e.ttl == nodataTtl && forall p <- Msg.RecordFields(buf[..len], qnamelen) ::
              TypeAt(buf[..len], p) == TYPE_OPT)
  {
    hide Msg.Walkable;
    hide FindAll;
    hide Rewrite;
    hide TtlsBounded;
    hide Smallest;
    ghost var m := buf[..len];
    ghost var ps := Msg.RecordFields(m, qnamelen);
    var ttl := Msg.GetTtl(buf, len, qnamelen, nodataTtl, min, max);
    if ttl <= 0 { return null; }
    FieldsSpread(m, Msg.MinLen(qnamelen), Msg.RecordsCount(m));
    EntryTtls(m, ps, nodataTtl, min, max);
    Msg.AgedWalk(GetTtl(min, max), m, qnamelen);
    WalkableWalk(m, qnamelen);
    if !FindAll(GetTtl(min, max), Found(nodataTtl, true), m, ps).nodata { SmallestBounds(buf[..len], ps, ttl); }
    else { OnlyOpt(m, ps, nodataTtl, min, max); }
    e := new CacheMsg(buf[..len], qnamelen, ttl, hashv, now, refresh);
  }

  lemma WalkableWalk(m: bytes, qnamelen: nat)
    requires Msg.Walkable(m, qnamelen)
    ensures Msg.HasHeader(m) && Msg.MinLen(qnamelen) <= |m| && Walk(m, Msg.MinLen(qnamelen), Msg.RecordsCount(m)).Some?
  {
  }

  lemma OnlyOpt(m: bytes, ps: seq<nat>, nodataTtl: int, min: int, max: int)
    requires FieldsOf(m, ps) && Spread(ps) && -0x8000_0000 <= min <= I32_MAX && -0x8000_0000 <= max <= I32_MAX
    requires FindAll(GetTtl(min, max), Found(nodataTtl, true), m, ps).nodata
    ensures forall p <- ps :: p + RECORD_LEN <= |m| && TypeAt(Rewrite(GetTtl(min, max), m, ps), p) == TYPE_OPT
  {
    hide FindAll;
    hide Rewrite;
    Msg.SmallestTtl(m, ps, nodataTtl, min, max);
    forall j | 0 <= j < |ps| ensures TypeAt(Rewrite(GetTtl(min, max), m, ps), ps[j]) == TYPE_OPT {
      RewriteTtl(GetTtl(min, max), m, ps, j);
    }
  }
}
