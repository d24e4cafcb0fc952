/** The pieces of the domain-list hash table as values: records and buckets at
    arena addresses, the chains threaded through them, and the facts about one
    chain or one table that do not depend on which operation is running. */
module DnlTable {
  import opened Bytes

  const NAMEADDR_END: nat := 0x1FFF_FFFF // largest value of a 29-bit address field
  const NAME_HDRSZ := 9 // sizeof(struct name)
  const BUCKET_SZ := 4 // sizeof(struct bucket) and its alignment
  const MAX_COLLISION := 4
  const DEFAULT_LCAP := 4

  /** The fields of `struct name` that never change once written; the `next`
      field is kept in a map of its own (`Links`). */
  datatype Rec = Rec(tag: nat, hashv: u32, text: bytes)

  datatype State = Free | Head | Next
  datatype Bucket = Bucket(state: State, head: nat)
  /** Where a table lies and how it is indexed, and its header with the two counters. */
  datatype Geo = Geo(buckets: nat, lcap: nat, shift: nat)
  datatype MapHdr = MapHdr(notnull: bool, geo: Geo, nlists: nat, nitems: nat)

  type Recs = map<nat, Rec>
  type Links = map<nat, nat>
  type Cells = map<nat, Bucket>

  function RecSize(r: Rec): nat { NAME_HDRSZ + |r.text| }

  function Pow2(n: nat): (p: nat)
    ensures p >= 1
  {
    if n == 0 then 1 else 2 * Pow2(n - 1)
  }

  function Cap(m: Geo): nat { Pow2(m.lcap) }
  function MaxLoad(m: Geo): nat { Cap(m) * 3 / 4 }
  /** `h >> n` */
  function ShiftRight(h: nat, n: nat): nat {
    if n == 0 then h else ShiftRight(h / 2, n - 1)
  }

  /** `x & (2^n - 1)` */
  function LowBits(x: nat, n: nat): (r: nat)
    ensures r < Pow2(n)
  {
    if n == 0 then 0 else x % 2 + 2 * LowBits(x / 2, n - 1)
  }

  /** map_idx: the hash without its lowest `shift` bits, cut to `lcap` bits. */
  function Idx(m: Geo, h: u32): (i: nat)
    ensures i < Cap(m)
  {
    LowBits(ShiftRight(h, m.shift), m.lcap)
  }

  /** That is division by a power of two, and the remainder of another. */
  lemma {:induction false} IdxIs(m: Geo, h: u32)
    ensures Idx(m, h) == h / Pow2(m.shift) % Pow2(m.lcap)
  {
    ShiftedIs(h, m.shift);
    LowBitsIs(h / Pow2(m.shift), m.lcap);
  }

  lemma {:induction false} ShiftedIs(h: nat, n: nat)
    ensures ShiftRight(h, n) == h / Pow2(n)
  {
    if n == 0 {
    } else {
      ShiftedIs(h / 2, n - 1);
      ModMod(h, Pow2(n - 1));
    }
  }

  lemma {:induction false} LowBitsIs(x: nat, n: nat)
    ensures LowBits(x, n) == x % Pow2(n)
  {
    if n == 0 {
    } else {
      LowBitsIs(x / 2, n - 1);
      ModMod(x, Pow2(n - 1));
    }
  }

  lemma Divides(x: nat, d: nat, q: nat, r: nat)
    requires d > 0 && r < d && x == q * d + r
    ensures x / d == q && x % d == r
  {
    if q < x / d { Below(q, x / d, d); }
    if x / d < q { Below(x / d, q, d); }
  }

  lemma {:induction false} Below(a: nat, b: nat, d: nat)
    requires a < b
    ensures a * d + d <= b * d
  {
    if a + 1 == b {
    } else {
      Below(a, b - 1, d);
    }
  }

  lemma ModMod(x: nat, b: nat)
    requires b > 0
    ensures x / 2 / b == x / (2 * b) && x % 2 + 2 * (x / 2 % b) == x % (2 * b)
  {
    var q, r := x / 2 / b, x / 2 % b;
    assert x / 2 == q * b + r;
    assert x == 2 * (q * b + r) + x % 2 == q * (2 * b) + (2 * r + x % 2);
    Divides(x, 2 * b, q, 2 * r + x % 2);
  }

  /** An L2 table may be filled to three quarters. */
  lemma MaxLoadIs(m: Geo)
    ensures 4 * MaxLoad(m) <= 3 * Pow2(m.lcap) < 4 * MaxLoad(m) + 4
  {
  }

  function At(m: Geo, i: nat): nat { m.buckets + BUCKET_SZ * i }

  function Hashv(recs: Recs, a: nat): u32 { if a in recs then recs[a].hashv else 0 }
  function Text(recs: Recs, a: nat): bytes { if a in recs then recs[a].text else [] }

  // ---------------------------------------------------------------- chains

  /** Following `next` from `head` visits exactly the addresses of `c` and stops. */
  ghost predicate Linked(next: Links, head: nat, c: seq<nat>)
    decreases |c|
  {
    if c == [] then head == NAMEADDR_END
    else head == c[0] && head < NAMEADDR_END && head in next && Linked(next, next[head], c[1..])
  }

  ghost predicate Holds(next: Links, b: Bucket, c: seq<nat>) {
    if b.state == Head then c != [] && Linked(next, b.head, c) else c == []
  }

  /** The records of one chain carry pairwise different names. */
  ghost predicate Distinct(recs: Recs, c: seq<nat>) {
    c == [] || (Distinct(recs, c[1..]) && forall a <- c[1..] :: Text(recs, a) != Text(recs, c[0]))
  }

  lemma {:induction false} DistinctPairwise(recs: Recs, c: seq<nat>)
    ensures Distinct(recs, c) <==> forall i, j :: 0 <= i < j < |c| ==> Text(recs, c[i]) != Text(recs, c[j])
  {
    if c == [] {
    } else {
      var d := c[1..];
      DistinctPairwise(recs, d);
      assert forall i :: 0 <= i < |d| ==> d[i] == c[i + 1];
      if Distinct(recs, c) {
        forall i, j | 0 <= i < j < |c| ensures Text(recs, c[i]) != Text(recs, c[j]) {
          assert c[j] == d[j - 1] && (i > 0 ==> c[i] == d[i - 1]);
        }
      }
    }
  }

  ghost predicate ChainOk(recs: Recs, c: seq<nat>) {
    (forall a <- c :: a in recs) && Distinct(recs, c)
  }

  /** The tag the chain search finds for the name `t`. */
  ghost function Lookup(recs: Recs, c: seq<nat>, t: bytes): Option<nat> {
    if c == [] then None
    else if Text(recs, c[0]) == t && c[0] in recs then Some(recs[c[0]].tag)
    else Lookup(recs, c[1..], t)
  }

  lemma {:induction false} LookupHit(recs: Recs, c: seq<nat>, a: nat)
    requires ChainOk(recs, c) && a in c
    ensures Lookup(recs, c, Text(recs, a)) == Some(recs[a].tag)
  {
    if c[0] == a {
    } else {
      var i :| 0 <= i < |c| && c[i] == a;
      assert c[1..][i - 1] == a;
      LookupHit(recs, c[1..], a);
    }
  }

  lemma {:induction false} LookupMiss(recs: Recs, c: seq<nat>, t: bytes)
    requires forall a <- c :: a in recs
    ensures Lookup(recs, c, t).None? <==> forall a <- c :: Text(recs, a) != t
  {
    if c == [] {
    } else {
      LookupMiss(recs, c[1..], t);
    }
  }

  /** Two chains with the same records of name `t` answer alike. */
  lemma LookupSame(recs: Recs, c: seq<nat>, d: seq<nat>, t: bytes)
    requires ChainOk(recs, c) && ChainOk(recs, d)
    requires forall a :: Text(recs, a) == t ==> (a in c <==> a in d)
    ensures Lookup(recs, c, t) == Lookup(recs, d, t)
  {
    LookupMiss(recs, c, t);
    LookupMiss(recs, d, t);
    if a :| a in c && Text(recs, a) == t {
      LookupHit(recs, c, a);
      LookupHit(recs, d, a);
    }
  }

  lemma {:induction false} LinkedFrame(next: Links, next': Links, head: nat, c: seq<nat>)
    requires Linked(next, head, c)
    requires forall a <- c :: a in next' && (a in next ==> next'[a] == next[a])
    ensures Linked(next', head, c)
    decreases |c|
  {
    if c == [] {
    } else {
      LinkedFrame(next, next', next[head], c[1..]);
    }
  }

  /** The sequence without its `p`-th element. */
  function Without(c: seq<nat>, p: nat): (r: seq<nat>)
    requires p < |c|
    ensures |r| == |c| - 1
  {
    if p == 0 then c[1..] else [c[0]] + Without(c[1..], p - 1)
  }

  lemma {:induction false} WithoutIs(c: seq<nat>, p: nat)
    requires p < |c|
    ensures Without(c, p) == c[..p] + c[p + 1..]
  {
    if p == 0 {
    } else {
      WithoutIs(c[1..], p - 1);
      FirstApart(c, p);
    }
  }

  lemma FirstApart(c: seq<nat>, p: nat)
    requires 0 < p < |c|
    ensures [c[0]] + (c[1..][..p - 1] + c[1..][p..]) == c[..p] + c[p + 1..]
  {
  }

  /** Pointing the predecessor past a record takes exactly that record out. */
  lemma {:induction false} LinkedUnlink(next: Links, head: nat, c: seq<nat>, p: nat)
    requires 0 < p < |c| && Linked(next, head, c) && c[p] in next && c[p - 1] in next
    requires c[p - 1] !in c[p + 1..] && forall i :: 0 <= i < p - 1 ==> c[i] != c[p - 1]
    ensures Linked(next[c[p - 1] := next[c[p]]], head, Without(c, p))
    decreases |c|
  {
    WithoutIs(c, p);
    var next' := next[c[p - 1] := next[c[p]]];
    if p == 1 {
      assert c[1..][1..] == c[2..];
      assert Without(c, 1)[1..] == c[2..];
      LinkedIn(next, next[c[1]], c[2..]);
      LinkedFrame(next, next', next[c[1]], c[2..]);
    } else {
      assert c[1..][p..] == c[p + 1..];
      LinkedUnlink(next, next[head], c[1..], p - 1);
      assert Without(c, p)[1..] == Without(c[1..], p - 1);
    }
  }

  lemma {:induction false} LinkedIn(next: Links, head: nat, c: seq<nat>)
    requires Linked(next, head, c)
    ensures forall a <- c :: a in next && a < NAMEADDR_END
    decreases |c|
  {
    if c == [] {
    } else {
      LinkedIn(next, next[head], c[1..]);
    }
  }

  /** A bucket's chain does not notice links of other records. */
  lemma HoldsFrame(next: Links, next': Links, b: Bucket, c: seq<nat>)
    requires Holds(next, b, c) && next.Keys <= next'.Keys && forall a <- c :: a in next ==> next'[a] == next[a]
    ensures Holds(next', b, c)
  {
    if b.state == Head {
      LinkedIn(next, b.head, c);
      LinkedFrame(next, next', b.head, c);
    }
  }

  /** Where a search stands after `k` steps. */
  lemma {:induction false} LinkedAt(next: Links, head: nat, c: seq<nat>, k: nat)
    requires Linked(next, head, c) && k < |c|
    ensures c[k] in next && c[k] < NAMEADDR_END && Linked(next, c[k], c[k..])
    decreases |c|
  {
    if k == 0 {
    } else {
      LinkedAt(next, next[head], c[1..], k - 1);
      assert c[1..][k - 1..] == c[k..];
    }
  }

  lemma LinkedNext(next: Links, head: nat, c: seq<nat>, p: nat)
    requires Linked(next, head, c) && p < |c|
    ensures c[p] in next && c[p] < NAMEADDR_END
    ensures if p + 1 == |c| then next[c[p]] == NAMEADDR_END else next[c[p]] == c[p + 1] < NAMEADDR_END
  {
    LinkedAt(next, head, c, p);
    if p + 1 < |c| { LinkedAt(next, head, c, p + 1); }
    assert c[p..][1..] == c[p + 1..];
  }

  // ---------------------------------------------------------------- counting

  ghost function Total(cs: seq<seq<nat>>): nat {
    if cs == [] then 0 else Total(cs[..|cs| - 1]) + |cs[|cs| - 1]|
  }

  /** How many buckets hold a list. */
  ghost function Heads(cs: seq<seq<nat>>): nat {
    if cs == [] then 0 else Heads(cs[..|cs| - 1]) + (if cs[|cs| - 1] == [] then 0 else 1)
  }

  lemma {:induction false} CountUpdate(cs: seq<seq<nat>>, i: nat, c: seq<nat>)
    requires i < |cs|
    ensures Total(cs[i := c]) == Total(cs) - |cs[i]| + |c|
    ensures Heads(cs[i := c]) == Heads(cs) - (if cs[i] == [] then 0 else 1) + (if c == [] then 0 else 1)
    ensures Total(cs) >= |cs[i]| && (cs[i] != [] ==> Heads(cs) >= 1)
  {
    var n := |cs| - 1;
    if i == n {
      assert cs[i := c][..n] == cs[..n];
    } else {
      CountUpdate(cs[..n], i, c);
      assert cs[i := c][..n] == cs[..n][i := c];
    }
  }

  function Empties(n: nat): seq<seq<nat>> { seq(n, _ => []) }

  lemma {:induction false} CountEmpties(cs: seq<seq<nat>>, n: nat)
    ensures Total(cs + Empties(n)) == Total(cs) && Heads(cs + Empties(n)) == Heads(cs)
  {
    if n == 0 {
      assert cs + Empties(0) == cs;
    } else {
      CountEmpties(cs, n - 1);
      var d := cs + Empties(n);
      assert d[..|d| - 1] == cs + Empties(n - 1);
    }
  }

  // ---------------------------------------------------------------- tables

  /** Bucket `i` of the table holds the chain `c`. */
  ghost predicate Slot(recs: Recs, next: Links, cells: Cells, m: Geo, i: nat, c: seq<nat>) {
    At(m, i) in cells && Holds(next, cells[At(m, i)], c) && ChainOk(recs, c)
  }

  ghost predicate Placed(recs: Recs, m: Geo, i: nat, c: seq<nat>) {
    forall a <- c :: Idx(m, Hashv(recs, a)) == i
  }

  ghost predicate Table(recs: Recs, next: Links, cells: Cells, m: Geo, cs: seq<seq<nat>>) {
    && |cs| == Cap(m)
    && (forall i :: 0 <= i < |cs| ==> Slot(recs, next, cells, m, i, cs[i]) && Placed(recs, m, i, cs[i]))
  }

  ghost predicate Counted(m: MapHdr, cs: seq<seq<nat>>) {
    m.nitems == Total(cs) && m.nlists == Heads(cs)
  }

  /** The tag a table holds for the name `t` with hash `h`. */
  ghost function Find(recs: Recs, m: Geo, cs: seq<seq<nat>>, h: u32, t: bytes): Option<nat>
    requires |cs| == Cap(m)
  {
    Lookup(recs, cs[Idx(m, h)], t)
  }

  /** Record `a` is on the chain its hash selects. */
  ghost predicate Member(recs: Recs, m: Geo, cs: seq<seq<nat>>, a: nat)
    requires |cs| == Cap(m)
  {
    a in cs[Idx(m, Hashv(recs, a))]
  }

  lemma SlotFrame(recs: Recs, next: Links, cells: Cells, next': Links, cells': Cells, m: Geo, i: nat, c: seq<nat>)
    requires Slot(recs, next, cells, m, i, c)
    requires At(m, i) in cells' && cells'[At(m, i)] == cells[At(m, i)]
    requires forall a <- c :: a in next' && (a in next ==> next'[a] == next[a])
    ensures Slot(recs, next', cells', m, i, c)
  {
    if cells[At(m, i)].state == Head { LinkedFrame(next, next', cells[At(m, i)].head, c); }
  }

  /** store_as_head and store_as_body: the record goes to the front of its chain. */
  lemma {:induction false} Stored(recs: Recs, next: Links, cells: Cells, m: Geo, cs: seq<seq<nat>>, a: nat,
               next': Links, cells': Cells, i: nat)
    requires Table(recs, next, cells, m, cs) && a in recs && a < NAMEADDR_END
    requires i == Idx(m, recs[a].hashv)
    requires At(m, i) in cells && cells[At(m, i)].state != Next
    requires Lookup(recs, cs[i], recs[a].text).None?
    requires next' == next[a := if cs[i] == [] then NAMEADDR_END else cells[At(m, i)].head]
    requires cells' == cells[At(m, i) := Bucket(Head, a)]
    ensures Table(recs, next', cells', m, cs[i := [a] + cs[i]])
    ensures Slots(recs, next, cells, m, cs) ==> Slots(recs, next', cells', m, cs[i := [a] + cs[i]])
  {
    var cs' := cs[i := [a] + cs[i]];
    forall j | 0 <= j < |cs'|
      ensures Slot(recs, next', cells', m, j, cs'[j]) && Placed(recs, m, j, cs'[j])
      ensures Slots(recs, next, cells, m, cs) ==> cells'[At(m, j)].state != Next
    {
      assert Slot(recs, next, cells, m, j, cs[j]) && Placed(recs, m, j, cs[j]);
      if j == i { StoredHere(recs, next, cells, m, cs[i], a, next', cells', i); }
      else { StoredElsewhere(recs, next, cells, m, cs[j], a, next', cells', i, j); }
    }
  }

  lemma {:induction false} StoredHere(recs: Recs, next: Links, cells: Cells, m: Geo, c: seq<nat>, a: nat,
                   next': Links, cells': Cells, i: nat)
    requires Slot(recs, next, cells, m, i, c) && cells[At(m, i)].state != Next
    requires a in recs && a < NAMEADDR_END && Lookup(recs, c, recs[a].text).None?
    requires next' == next[a := if c == [] then NAMEADDR_END else cells[At(m, i)].head]
    requires cells' == cells[At(m, i) := Bucket(Head, a)]
    ensures Slot(recs, next', cells', m, i, [a] + c)
  {
    LookupMiss(recs, c, recs[a].text);
    assert ([a] + c)[1..] == c;
    if c != [] {
      LinkedIn(next, cells[At(m, i)].head, c);
      LinkedFrame(next, next', cells[At(m, i)].head, c);
    }
  }

  lemma StoredElsewhere(recs: Recs, next: Links, cells: Cells, m: Geo, c: seq<nat>, a: nat,
                        next': Links, cells': Cells, i: nat, j: nat)
    requires Slot(recs, next, cells, m, j, c) && Placed(recs, m, j, c)
    requires a in recs && Idx(m, recs[a].hashv) == i != j
    requires a in next' && next' == next[a := next'[a]]
    requires cells' == cells[At(m, i) := Bucket(Head, a)]
    ensures Slot(recs, next', cells', m, j, c) && cells'[At(m, j)] == cells[At(m, j)]
  {
    if cells[At(m, j)].state == Head { LinkedIn(next, cells[At(m, j)].head, c); }
    SlotFrame(recs, next, cells, next', cells', m, j, c);
  }

  /** Chains stay short and away from the records of the other table. */
  ghost predicate Bounded(cs: seq<seq<nat>>, bound: nat, other: set<nat>) {
    forall i :: 0 <= i < |cs| ==> |cs[i]| <= bound && forall a <- cs[i] :: a !in other
  }

  lemma StoredBounded(cs: seq<seq<nat>>, bound: nat, other: set<nat>, a: nat, i: nat)
    requires Bounded(cs, bound, other) && i < |cs| && |cs[i]| < bound && a !in other
    ensures Bounded(cs[i := [a] + cs[i]], bound, other)
  {
  }

  /** A table over free buckets only. */
  lemma {:induction false} FreshTable(recs: Recs, next: Links, cells: Cells, m: Geo, cs: seq<seq<nat>>)
    requires |cs| == Cap(m) && forall i :: 0 <= i < |cs| ==> cs[i] == []
    requires forall i :: 0 <= i < Cap(m) ==> At(m, i) in cells && cells[At(m, i)] == Bucket(Free, 0)
    ensures Table(recs, next, cells, m, cs) && Slots(recs, next, cells, m, cs)
  {
  }

  /** What the stored record changes in the answers of its table. */
  lemma StoredFind(recs: Recs, m: Geo, cs: seq<seq<nat>>, a: nat, hash: bytes -> u32, t: bytes)
    requires |cs| == Cap(m) && a in recs && recs[a].hashv == hash(recs[a].text)
    requires Find(recs, m, cs, recs[a].hashv, recs[a].text).None?
    ensures var i := Idx(m, recs[a].hashv);
            Find(recs, m, cs[i := [a] + cs[i]], hash(t), t) ==
            if t == recs[a].text then Some(recs[a].tag) else Find(recs, m, cs, hash(t), t)
  {
    var i := Idx(m, recs[a].hashv);
    assert ([a] + cs[i])[1..] == cs[i];
  }

  lemma StoredIn(recs: Recs, m: Geo, cs: seq<seq<nat>>, a: nat, b: nat)
    requires |cs| == Cap(m) && a in recs
    ensures var i := Idx(m, recs[a].hashv);
            Member(recs, m, cs[i := [a] + cs[i]], b) <==> b == a || Member(recs, m, cs, b)
  {
    var i := Idx(m, recs[a].hashv);
    assert b in [a] + cs[i] <==> b == a || b in cs[i];
  }

  // ---------------------------------------------------------------- promotion

  function Get<K, V>(m: map<K, V>, k: K): Option<V> { if k in m then Some(m[k]) else None }

  /** The map with the first `k` records of chain `c` added. */
  ghost function PutN(recs: Recs, m: map<bytes, nat>, c: seq<nat>, k: nat): map<bytes, nat>
    requires k <= |c| && forall a <- c :: a in recs
  {
    if k == 0 then m else PutN(recs, m, c, k - 1)[Text(recs, c[k - 1]) := recs[c[k - 1]].tag]
  }

  /** Names that are not on the chain keep what they had. */
  lemma {:induction false} PutNOther(recs: Recs, m: map<bytes, nat>, c: seq<nat>, k: nat, t: bytes)
    requires k <= |c| && (forall a <- c :: a in recs) && forall j :: 0 <= j < k ==> Text(recs, c[j]) != t
    ensures Get(PutN(recs, m, c, k), t) == Get(m, t)
  {
    if k == 0 {
    } else {
      PutNOther(recs, m, c, k - 1, t);
    }
  }

  /** Each name of the chain gets its tag. */
  lemma {:induction false} PutNHit(recs: Recs, m: map<bytes, nat>, c: seq<nat>, k: nat, j: nat)
    requires j < k <= |c| && ChainOk(recs, c)
    ensures Get(PutN(recs, m, c, k), Text(recs, c[j])) == Some(recs[c[j]].tag)
  {
    if j == k - 1 {
    } else {
      PutNHit(recs, m, c, k - 1, j);
      DistinctPairwise(recs, c);
    }
  }

  /** After a whole chain has been added, its names have the tags the chain search finds. */
  lemma PutAllGet(recs: Recs, m: map<bytes, nat>, c: seq<nat>, t: bytes)
    requires ChainOk(recs, c)
    ensures Get(PutN(recs, m, c, |c|), t) == var l := Lookup(recs, c, t); if l.Some? then l else Get(m, t)
  {
    LookupMiss(recs, c, t);
    if a :| a in c && Text(recs, a) == t {
      LookupHit(recs, c, a);
      var j :| 0 <= j < |c| && c[j] == a;
      PutNHit(recs, m, c, |c|, j);
    } else {
      assert forall j :: 0 <= j < |c| ==> c[j] in c;
      PutNOther(recs, m, c, |c|, t);
    }
  }

  lemma {:induction false} PutNFresh(recs: Recs, m: map<bytes, nat>, c: seq<nat>, k: nat)
    requires ChainOk(recs, c) && k < |c| && forall j :: 0 <= j < |c| ==> Text(recs, c[j]) !in m
    ensures Text(recs, c[k]) !in PutN(recs, m, c, k)
  {
    DistinctPairwise(recs, c);
    PutNOther(recs, m, c, k, Text(recs, c[k]));
  }

  lemma {:induction false} PutNSize(recs: Recs, m: map<bytes, nat>, c: seq<nat>, k: nat)
    requires ChainOk(recs, c) && k <= |c| && forall j :: 0 <= j < |c| ==> Text(recs, c[j]) !in m
    ensures |PutN(recs, m, c, k)| == |m| + k
  {
    hide Distinct;
    if k == 0 {
    } else {
      PutNSize(recs, m, c, k - 1);
      PutNFresh(recs, m, c, k - 1);
      OneNameMore(PutN(recs, m, c, k - 1), Text(recs, c[k - 1]), recs[c[k - 1]].tag);
    }
  }

  lemma OneNameMore(m: map<bytes, nat>, t: bytes, tag: nat)
    requires t !in m
    ensures |m[t := tag]| == |m| + 1
  {
  }

  /** A table is untouched by changes elsewhere. */
  lemma {:induction false} TableFrame(recs: Recs, next: Links, cells: Cells, m: Geo, cs: seq<seq<nat>>, next': Links,
                                      cells': Cells)
    requires Table(recs, next, cells, m, cs)
    requires forall i :: 0 <= i < Cap(m) && At(m, i) in cells ==>
               At(m, i) in cells'
               && cells'[At(m, i)] == cells[At(m, i)]
    requires next.Keys <= next'.Keys && forall a :: a in next && Member(recs, m, cs, a) ==> next'[a] == next[a]
    ensures Table(recs, next', cells', m, cs)
    ensures Slots(recs, next, cells, m, cs) ==> Slots(recs, next', cells', m, cs)
  {
    forall j | 0 <= j < |cs|
      ensures Slot(recs, next', cells', m, j, cs[j]) && Placed(recs, m, j, cs[j]) && cells'[At(m, j)] == cells[At(m, j)]
    {
      assert Slot(recs, next, cells, m, j, cs[j]) && Placed(recs, m, j, cs[j]);
      if cells[At(m, j)].state == Head { LinkedIn(next, cells[At(m, j)].head, cs[j]); }
      forall a | a in cs[j] && a in next ensures next'[a] == next[a] { assert Member(recs, m, cs, a); }
      SlotFrame(recs, next, cells, next', cells', m, j, cs[j]);
    }
    if Slots(recs, next, cells, m, cs) {
      forall j | 0 <= j < |cs| ensures cells'[At(m, j)].state != Next { assert Slot(recs, next, cells, m, j, cs[j]); }
    }
  }

  lemma {:induction false} TableEmptied(recs: Recs, next: Links, cells: Cells, m: Geo, cs: seq<seq<nat>>, i: nat,
                                        cells': Cells)
    requires Table(recs, next, cells, m, cs) && i < |cs|
    requires At(m, i) in cells && cells' == cells[At(m, i) := Bucket(Next, cells[At(m, i)].head)]
    ensures Table(recs, next, cells', m, cs[i := []])
  {
    var cs' := cs[i := []];
    forall j | 0 <= j < |cs'| ensures Slot(recs, next, cells', m, j, cs'[j]) && Placed(recs, m, j, cs'[j]) {
      assert Slot(recs, next, cells, m, j, cs[j]) && Placed(recs, m, j, cs[j]);
    }
  }

  /** The first insertion of a name wins. */
  function PutNew(m: map<bytes, nat>, r: Rec): map<bytes, nat> {
    if r.text in m then m else m[r.text := r.tag]
  }

  // ---------------------------------------------------------------- lists of names

  /** Walking from `addr` by record size meets exactly the names `ts`. */
  ghost predicate Laid(recs: Recs, addr: nat, ts: seq<bytes>, tag: nat)
    decreases |ts|
  {
    ts == [] || (addr in recs && recs[addr].text == ts[0] && recs[addr].tag == tag
                 && Laid(recs, addr + RecSize(recs[addr]), ts[1..], tag))
  }

  function SizeOf(ts: seq<bytes>): nat {
    if ts == [] then 0 else NAME_HDRSZ + |ts[0]| + SizeOf(ts[1..])
  }

  lemma {:induction false} SizeOfJoin(a: seq<bytes>, b: seq<bytes>)
    ensures SizeOf(a + b) == SizeOf(a) + SizeOf(b)
  {
    if a == [] {
      assert a + b == b;
    } else {
      SizeOfJoin(a[1..], b);
      assert (a + b)[1..] == a[1..] + b;
    }
  }

  lemma {:induction false} LaidGrow(recs: Recs, recs': Recs, addr: nat, ts: seq<bytes>, tag: nat)
    requires Laid(recs, addr, ts, tag) && forall a <- recs :: a in recs' && recs'[a] == recs[a]
    ensures Laid(recs', addr, ts, tag)
    decreases |ts|
  {
    if ts == [] {
    } else {
      LaidGrow(recs, recs', addr + RecSize(recs[addr]), ts[1..], tag);
    }
  }

  lemma {:induction false} LaidAppend(recs: Recs, addr: nat, ts: seq<bytes>, t: bytes, tag: nat)
    requires Laid(recs, addr, ts, tag)
    requires addr + SizeOf(ts) in recs && recs[addr + SizeOf(ts)].text == t && recs[addr + SizeOf(ts)].tag == tag
    ensures Laid(recs, addr, ts + [t], tag) && SizeOf(ts + [t]) == SizeOf(ts) + NAME_HDRSZ + |t|
    decreases |ts|
  {
    if ts == [] {
      assert ts + [t] == [t] && [t][1..] == [];
    } else {
      LaidAppend(recs, addr + RecSize(recs[addr]), ts[1..], t, tag);
      assert (ts + [t])[1..] == ts[1..] + [t];
    }
  }

  /** The map after a list of names has been added under one tag. */
  function PutTexts(m: map<bytes, nat>, ts: seq<bytes>, tag: nat): map<bytes, nat>
    decreases |ts|
  {
    if ts == [] then m else PutTexts(PutNew(m, Rec(tag, 0, ts[0])), ts[1..], tag)
  }

  lemma {:induction false} PutTextsGet(m: map<bytes, nat>, ts: seq<bytes>, tag: nat, t: bytes)
    ensures Get(PutTexts(m, ts, tag), t) == if t in m then Some(m[t]) else if t in ts then Some(tag) else None
    decreases |ts|
  {
    if ts == [] {
    } else {
      PutTextsGet(PutNew(m, Rec(tag, 0, ts[0])), ts[1..], tag, t);
      assert ts == [ts[0]] + ts[1..];
    }
  }

  lemma {:induction false} PutTextsGrows(m: map<bytes, nat>, ts: seq<bytes>, tag: nat)
    ensures |PutTexts(m, ts, tag)| >= |m|
    decreases |ts|
  {
    if ts == [] {
    } else {
      PutTextsGrows(PutNew(m, Rec(tag, 0, ts[0])), ts[1..], tag);
    }
  }

  /** The records lie one after the other below `end`. */
  ghost predicate Packed(recs: Recs, end: nat) {
    && (forall a <- recs :: a + RecSize(recs[a]) <= end)
    && (forall a, b :: a in recs && b in recs && a < b ==> a + RecSize(recs[a]) <= b)
  }

  // ---------------------------------------------------------------- both tables

  function StateAt(cells: Cells, m: Geo, h: u32): State {
    var x := At(m, Idx(m, h));
    if x in cells then cells[x].state else Free
  }

  /** The tag both tables together hold for the name `t` with hash `h`: the L1
      bucket says which of them to ask. */
  ghost function Both(recs: Recs, cells: Cells, m: Geo, cs: seq<seq<nat>>, l2: map<bytes, nat>, h: u32,
                      t: bytes): Option<nat> {
    if StateAt(cells, m, h) == Next then Get(l2, t)
    else if |cs| == Cap(m) then Find(recs, m, cs, h, t)
    else None
  }

  /** The tables together hold the map `spec`; a name is in L2 only if its L1
      bucket says so, and then nowhere else. */
  ghost predicate ViewOf(recs: Recs, cells: Cells, m: Geo, cs: seq<seq<nat>>, l2: map<bytes, nat>, spec: map<bytes,
                         nat>, hash: bytes -> u32) {
    forall t {:trigger Both(recs, cells, m, cs, l2, hash(t), t)} ::
      Both(recs, cells, m, cs, l2, hash(t), t) == Get(spec, t) && (t in l2 ==> StateAt(cells, m, hash(t)) == Next)
  }

  /** Storing a name in L1 adds it to the answers and marks no other bucket. */
  lemma BothStored(recs: Recs, cells: Cells, m: Geo, cs: seq<seq<nat>>, l2: map<bytes, nat>, a: nat, hash: bytes -> u32,
                   t: bytes)
    requires |cs| == Cap(m) && a in recs && recs[a].hashv == hash(recs[a].text)
    requires Find(recs, m, cs, recs[a].hashv, recs[a].text).None?
    requires StateAt(cells, m, recs[a].hashv) != Next
    ensures var i := Idx(m, recs[a].hashv);
            var cells' := cells[At(m, i) := Bucket(Head, a)];
            && (StateAt(cells', m, hash(t)) == Next <==> StateAt(cells, m, hash(t)) == Next)
            && Both(recs, cells', m, cs[i := [a] + cs[i]], l2, hash(t), t)
               == if t == recs[a].text then Some(recs[a].tag) else Both(recs, cells, m, cs, l2, hash(t), t)
  {
    StoredFind(recs, m, cs, a, hash, t);
  }

  /** Promoting a bucket keeps the answers: its chain is answered by L2 from now on. */
  lemma {:induction false} BothPromoted(recs: Recs, cells: Cells, m: Geo, cs: seq<seq<nat>>, l2: map<bytes, nat>,
                                        i: nat,
                     hash: bytes -> u32,
                     cells': Cells, t: bytes)
    requires |cs| == Cap(m) && i < |cs| && ChainOk(recs, cs[i]) && At(m, i) in cells && cells[At(m, i)].state != Next
    requires Placed(recs, m, i, cs[i]) && forall a <- recs :: recs[a].hashv == hash(recs[a].text)
    requires cells' == cells[At(m, i) := Bucket(Next, cells[At(m, i)].head)]
    requires t in l2 ==> StateAt(cells, m, hash(t)) == Next
    ensures var l2' := PutN(recs, l2, cs[i], |cs[i]|);
            && Both(recs, cells', m, cs[i := []], l2', hash(t), t) == Both(recs, cells, m, cs, l2, hash(t), t)
            && (t in l2' ==> StateAt(cells', m, hash(t)) == Next)
  {
    PutAllGet(recs, l2, cs[i], t);
    LookupMiss(recs, cs[i], t);
    if Idx(m, hash(t)) != i {
      forall a | a in cs[i] ensures Text(recs, a) != t { }
    }
  }

  lemma StateFrame(next: Links, cells: Cells, cells': Cells, m: Geo, recs: Recs, cs: seq<seq<nat>>, h: u32)
    requires Table(recs, next, cells, m, cs)
    requires forall x :: x in cells && x < At(m, Cap(m)) ==> x in cells' && cells'[x] == cells[x]
    ensures StateAt(cells', m, h) == StateAt(cells, m, h)
  {
    assert Slot(recs, next, cells, m, Idx(m, h), cs[Idx(m, h)]);
  }

  lemma {:induction false} ViewStored(recs: Recs, cells: Cells, m: Geo, cs: seq<seq<nat>>, l2: map<bytes, nat>,
                                      spec: map<bytes, nat>,
                   hash: bytes -> u32, a: nat)
    requires ViewOf(recs, cells, m, cs, l2, spec, hash)
    requires |cs| == Cap(m) && a in recs && recs[a].hashv == hash(recs[a].text) && recs[a].text !in spec
    requires StateAt(cells, m, recs[a].hashv) != Next
    ensures var i := Idx(m, recs[a].hashv);
            ViewOf(recs, cells[At(m, i) := Bucket(Head, a)], m, cs[i := [a] + cs[i]], l2,
                spec[recs[a].text := recs[a].tag], hash)
  {
    var i := Idx(m, recs[a].hashv);
    var cells', cs', spec' := cells[At(m, i) := Bucket(Head, a)], cs[i := [a] + cs[i]],
        spec[recs[a].text := recs[a].tag];
    assert Both(recs, cells, m, cs, l2, recs[a].hashv, recs[a].text).None?;
    forall t ensures Both(recs, cells', m, cs', l2, hash(t), t) == Get(spec', t)
        && (t in l2 ==> StateAt(cells', m, hash(t)) == Next) {
      assert Both(recs, cells, m, cs, l2, hash(t), t) == Get(spec, t);
      BothStored(recs, cells, m, cs, l2, a, hash, t);
    }
  }

  lemma {:induction false} ViewPromoted(recs: Recs, cells: Cells, m: Geo, cs: seq<seq<nat>>, l2: map<bytes, nat>,
                                        spec: map<bytes, nat>,
                     hash: bytes -> u32, i: nat)
    requires ViewOf(recs, cells, m, cs, l2, spec, hash)
    requires |cs| == Cap(m) && i < |cs| && ChainOk(recs, cs[i]) && At(m, i) in cells && cells[At(m, i)].state != Next
    requires Placed(recs, m, i, cs[i]) && forall a <- recs :: recs[a].hashv == hash(recs[a].text)
    ensures ViewOf(recs, cells[At(m, i) := Bucket(Next, cells[At(m, i)].head)], m, cs[i := []],
            PutN(recs, l2, cs[i], |cs[i]|), spec, hash)
  {
    var cells', cs', l2' := cells[At(m, i) := Bucket(Next, cells[At(m, i)].head)], cs[i := []],
        PutN(recs, l2, cs[i], |cs[i]|);
    forall t ensures Both(recs, cells', m, cs', l2', hash(t), t) == Get(spec, t)
        && (t in l2' ==> StateAt(cells', m, hash(t)) == Next) {
      assert Both(recs, cells, m, cs, l2, hash(t), t) == Get(spec, t);
      BothPromoted(recs, cells, m, cs, l2, i, hash, cells', t);
    }
  }

  lemma {:induction false} ViewInserted(recs: Recs, cells: Cells, m: Geo, cs: seq<seq<nat>>, l2: map<bytes, nat>,
                                        spec: map<bytes, nat>,
                     hash: bytes -> u32, a: nat)
    requires ViewOf(recs, cells, m, cs, l2, spec, hash)
    requires a in recs && recs[a].hashv == hash(recs[a].text) && StateAt(cells, m, recs[a].hashv) == Next
    ensures ViewOf(recs, cells, m, cs, PutNew(l2, recs[a]), PutNew(spec, recs[a]), hash)
  {
    assert Both(recs, cells, m, cs, l2, recs[a].hashv, recs[a].text) == Get(spec, recs[a].text);
    forall t ensures Both(recs, cells, m, cs, PutNew(l2, recs[a]), hash(t), t) == Get(PutNew(spec, recs[a]), t)
                     && (t in PutNew(l2, recs[a]) ==> StateAt(cells, m, hash(t)) == Next) {
      assert Both(recs, cells, m, cs, l2, hash(t), t) == Get(spec, t);
    }
  }

  lemma {:induction false} ViewFrame(recs: Recs, next: Links, cells: Cells, m: Geo, cs: seq<seq<nat>>, l2: map<bytes,
                                     nat>,
                  spec: map<bytes, nat>, hash: bytes -> u32, cells': Cells)
    requires ViewOf(recs, cells, m, cs, l2, spec, hash) && Table(recs, next, cells, m, cs)
    requires forall x :: x in cells && x < At(m, Cap(m)) ==> x in cells' && cells'[x] == cells[x]
    ensures ViewOf(recs, cells', m, cs, l2, spec, hash)
  {
    forall t ensures Both(recs, cells', m, cs, l2, hash(t), t) == Get(spec, t)
        && (t in l2 ==> StateAt(cells', m, hash(t)) == Next) {
      StateFrame(next, cells, cells', m, recs, cs, hash(t));
      assert Both(recs, cells, m, cs, l2, hash(t), t) == Get(spec, t);
    }
  }

  // ---------------------------------------------------------------- doubling

  /** Record `a` keeps bucket `i` in the doubled table `m`. */
  ghost predicate Keeps(recs: Recs, m: Geo, i: nat, a: nat) { Idx(m, Hashv(recs, a)) == i }

  /** Of the first `k` records of chain `c` of bucket `i`: those a doubling leaves there, in their old order. */
  ghost function StayN(recs: Recs, m: Geo, i: nat, c: seq<nat>, k: nat): seq<nat>
    requires k <= |c|
  {
    if k == 0 then []
    else if Keeps(recs, m, i, c[k - 1]) then StayN(recs, m, i, c, k - 1) + [c[k - 1]]
    else StayN(recs, m, i, c, k - 1)
  }

  /** And those it moves out, in reverse order. */
  ghost function MovedN(recs: Recs, m: Geo, i: nat, c: seq<nat>, k: nat): seq<nat>
    requires k <= |c|
  {
    if k == 0 then []
    else if Keeps(recs, m, i, c[k - 1]) then MovedN(recs, m, i, c, k - 1)
    else [c[k - 1]] + MovedN(recs, m, i, c, k - 1)
  }

  ghost function Stay(recs: Recs, m: Geo, i: nat, c: seq<nat>): seq<nat> { StayN(recs, m, i, c, |c|) }
  ghost function Moved(recs: Recs, m: Geo, i: nat, c: seq<nat>): seq<nat> { MovedN(recs, m, i, c, |c|) }

  lemma {:induction false} StayMovedNIn(recs: Recs, m: Geo, i: nat, c: seq<nat>, k: nat, a: nat)
    requires k <= |c|
    ensures a in StayN(recs, m, i, c, k) <==> a in c[..k] && Keeps(recs, m, i, a)
    ensures a in MovedN(recs, m, i, c, k) <==> a in c[..k] && !Keeps(recs, m, i, a)
    ensures |StayN(recs, m, i, c, k)| + |MovedN(recs, m, i, c, k)| == k
  {
    if k == 0 {
    } else {
      StayMovedNIn(recs, m, i, c, k - 1, a);
      assert c[..k] == c[..k - 1] + [c[k - 1]];
    }
  }

  lemma StayMovedIn(recs: Recs, m: Geo, i: nat, c: seq<nat>, a: nat)
    ensures a in Stay(recs, m, i, c) <==> a in c && Idx(m, Hashv(recs, a)) == i
    ensures a in Moved(recs, m, i, c) <==> a in c && Idx(m, Hashv(recs, a)) != i
    ensures |Stay(recs, m, i, c)| + |Moved(recs, m, i, c)| == |c|
  {
    StayMovedNIn(recs, m, i, c, |c|, a);
    assert c[..|c|] == c;
  }

  lemma ChainJoin(recs: Recs, c: seq<nat>, d: seq<nat>)
    requires ChainOk(recs, c) && ChainOk(recs, d)
    requires forall a, b :: a in c && b in d ==> Text(recs, a) != Text(recs, b)
    ensures ChainOk(recs, c + d)
  {
    DistinctPairwise(recs, c);
    DistinctPairwise(recs, d);
    DistinctPairwise(recs, c + d);
  }

  lemma {:induction false} ChainCut(recs: Recs, c: seq<nat>, k: nat)
    requires ChainOk(recs, c) && k <= |c|
    ensures ChainOk(recs, c[..k]) && ChainOk(recs, c[k..])
    ensures forall a, b :: a in c[..k] && b in c[k..] ==> Text(recs, a) != Text(recs, b)
  {
    DistinctPairwise(recs, c);
    DistinctPairwise(recs, c[..k]);
    DistinctPairwise(recs, c[k..]);
    assert forall y :: 0 <= y < |c[k..]| ==> c[k..][y] == c[k + y];
    assert forall y :: 0 <= y < k ==> c[..k][y] == c[y];
  }

  lemma {:induction false} ChainRemove(recs: Recs, c: seq<nat>, p: nat)
    requires ChainOk(recs, c) && p < |c|
    ensures ChainOk(recs, Without(c, p)) && c[p] !in Without(c, p)
    ensures forall a <- Without(c, p) :: a in c
  {
    if p == 0 {
    } else {
      ChainRemove(recs, c[1..], p - 1);
      assert Without(c, p)[1..] == Without(c[1..], p - 1);
      assert c[p] in c[1..];
    }
  }

  lemma ChainPrev(recs: Recs, c: seq<nat>, p: nat)
    requires ChainOk(recs, c) && 0 < p < |c|
    ensures c[p - 1] !in c[p + 1..] && forall i :: 0 <= i < p - 1 ==> c[i] != c[p - 1]
  {
    DistinctPairwise(recs, c);
    var d := c[p + 1..];
    assert forall i :: 0 <= i < |d| ==> d[i] == c[p + 1 + i];
  }

  lemma {:induction false} StayMovedNOk(recs: Recs, m: Geo, i: nat, c: seq<nat>, k: nat)
    requires ChainOk(recs, c) && k <= |c|
    ensures ChainOk(recs, StayN(recs, m, i, c, k)) && ChainOk(recs, MovedN(recs, m, i, c, k))
  {
    if k == 0 {
    } else {
      var s, v, a := StayN(recs, m, i, c, k - 1), MovedN(recs, m, i, c, k - 1), c[k - 1];
      StayMovedNOk(recs, m, i, c, k - 1);
      ChainCut(recs, c, k - 1);
      assert c[k - 1..][0] == a;
      forall b | b in s || b in v ensures Text(recs, b) != Text(recs, a) { StayMovedNIn(recs, m, i, c, k - 1, b); }
      if Keeps(recs, m, i, a) { ChainJoin(recs, s, [a]); } else { ChainJoin(recs, [a], v); }
    }
  }

  lemma StayMovedOk(recs: Recs, m: Geo, i: nat, c: seq<nat>)
    requires ChainOk(recs, c)
    ensures ChainOk(recs, Stay(recs, m, i, c)) && ChainOk(recs, Moved(recs, m, i, c))
  {
    StayMovedNOk(recs, m, i, c, |c|);
  }

  /** The chain left in bucket `i` after `k` records of `c0` have been looked at,
      and how many of those are still on it. */
  ghost function RestN(recs: Recs, m: Geo, i: nat, c0: seq<nat>, k: nat): (r: seq<nat>)
    requires k <= |c0|
  {
    if k == 0 then c0
    else
      var r, p := RestN(recs, m, i, c0, k - 1), KeptN(recs, m, i, c0, k - 1);
      if Keeps(recs, m, i, c0[k - 1]) || p >= |r| then r else Without(r, p)
  }

  ghost function KeptN(recs: Recs, m: Geo, i: nat, c0: seq<nat>, k: nat): nat
    requires k <= |c0|
  {
    if k == 0 then 0 else KeptN(recs, m, i, c0, k - 1) + (if Keeps(recs, m, i, c0[k - 1]) then 1 else 0)
  }

  /** `prev` of the loop over the chain. */
  ghost function PrevN(recs: Recs, m: Geo, i: nat, c0: seq<nat>, k: nat): Option<nat>
    requires k <= |c0|
  {
    if k == 0 then None
    else if Keeps(recs, m, i, c0[k - 1]) then Some(c0[k - 1])
    else PrevN(recs, m, i, c0, k - 1)
  }

  lemma {:induction false} RestIs(recs: Recs, m: Geo, i: nat, c0: seq<nat>, k: nat)
    requires k <= |c0|
    ensures var s := StayN(recs, m, i, c0, k);
            && RestN(recs, m, i, c0, k) == s + c0[k..] && KeptN(recs, m, i, c0, k) == |s|
            && PrevN(recs, m, i, c0, k) == if s == [] then None else Some(s[|s| - 1])
  {
    hide Keeps;
    hide Without;
    if k == 0 {
    } else {
      RestIs(recs, m, i, c0, k - 1);
      OneKept(StayN(recs, m, i, c0, k - 1), c0, k - 1);
    }
  }

  /** Element `k` of `c`, behind the elements `s` that stay, stays or goes. */
  lemma {:induction false} OneKept(s: seq<nat>, c: seq<nat>, k: nat)
    requires k < |c|
    ensures s + c[k..] == (s + [c[k]]) + c[k + 1..]
    ensures Without(s + c[k..], |s|) == s + c[k + 1..]
  {
    hide Without;
    assert c[k..] == [c[k]] + c[k + 1..];
    Between(s, c[k], c[k + 1..]);
    WithoutIs(s + c[k..], |s|);
  }

  lemma Between(s: seq<nat>, x: nat, t: seq<nat>)
    ensures s + ([x] + t) == (s + [x]) + t
    ensures (s + ([x] + t))[..|s|] == s && (s + ([x] + t))[|s| + 1..] == t
  {
  }

  lemma RestEnd(recs: Recs, m: Geo, i: nat, c0: seq<nat>)
    ensures RestN(recs, m, i, c0, |c0|) == Stay(recs, m, i, c0) && MovedN(recs, m, i, c0, |c0|) == Moved(recs, m, i, c0)
  {
    RestIs(recs, m, i, c0, |c0|);
    assert Stay(recs, m, i, c0) + c0[|c0|..] == Stay(recs, m, i, c0);
  }

  /** Where the next record sits on what is left of the chain. */
  lemma RestAt(recs: Recs, m: Geo, i: nat, c0: seq<nat>, k: nat)
    requires k < |c0|
    ensures var c, p := RestN(recs, m, i, c0, k), KeptN(recs, m, i, c0, k);
            && p < |c| && c[p] == c0[k] && |c| - p == |c0| - k
            && (k + 1 < |c0| ==> c[p + 1] == c0[k + 1])
            && PrevN(recs, m, i, c0, k) == if p == 0 then None else Some(c[p - 1])
  {
    hide RestN;
    hide KeptN;
    hide PrevN;
    hide StayN;
    RestIs(recs, m, i, c0, k);
  }

  lemma {:induction false} RestChain(recs: Recs, m: Geo, i: nat, c0: seq<nat>, k: nat)
    requires k <= |c0| && ChainOk(recs, c0)
    ensures ChainOk(recs, RestN(recs, m, i, c0, k))
    ensures forall a <- RestN(recs, m, i, c0, k) :: a in c0
    ensures forall a <- MovedN(recs, m, i, c0, k) :: a !in RestN(recs, m, i, c0, k)
  {
    hide ChainOk;
    hide Distinct;
    hide Keeps;
    hide KeptN;
    hide Without;
    if k == 0 {
    } else {
      RestChain(recs, m, i, c0, k - 1);
      if !Keeps(recs, m, i, c0[k - 1]) {
        var r, p := RestN(recs, m, i, c0, k - 1), KeptN(recs, m, i, c0, k - 1);
        RestAt(recs, m, i, c0, k - 1);
        ChainRemove(recs, r, p);
        forall a | a in MovedN(recs, m, i, c0, k) ensures a !in Without(r, p) {
          assert a == c0[k - 1] || a in MovedN(recs, m, i, c0, k - 1);
        }
      }
    }
  }

  lemma {:induction false} LowBitsMore(x: nat, n: nat)
    ensures LowBits(x, n + 1) == LowBits(x, n) || LowBits(x, n + 1) == LowBits(x, n) + Pow2(n)
  {
    if n > 0 {
      LowBitsMore(x / 2, n - 1);
    } else {
      assert LowBits(x, 1) == x % 2 + 2 * LowBits(x / 2, 0);
    }
  }

  /** The index in the doubled table is the old one or the old one plus the old capacity. */
  lemma IdxDouble(m: Geo, h: u32)
    ensures var m2 := m.(lcap := m.lcap + 1);
            Idx(m2, h) == Idx(m, h) || Idx(m2, h) == Idx(m, h) + Cap(m)
  {
    LowBitsMore(ShiftRight(h, m.shift), m.lcap);
  }

  /** The chains after buckets below `k` of the doubled table have been split. */
  ghost predicate SplitUpTo(recs: Recs, m: Geo, n: nat, old_cs: seq<seq<nat>>, cs: seq<seq<nat>>, k: nat) {
    && |old_cs| == n && |cs| == 2 * n && k <= n
    && (forall i :: 0 <= i < k ==> cs[i] == Stay(recs, m, i, old_cs[i])
                                   && cs[i + n] == Moved(recs, m, i, old_cs[i]))
    && (forall i :: k <= i < n ==> cs[i] == old_cs[i])
    && (forall j :: n + k <= j < 2 * n ==> cs[j] == [])
  }

  ghost predicate Slots(recs: Recs, next: Links, cells: Cells, m: Geo, cs: seq<seq<nat>>) {
    forall i :: 0 <= i < |cs| ==> Slot(recs, next, cells, m, i, cs[i]) && cells[At(m, i)].state != Next
  }

  lemma SplitUpToIn(recs: Recs, m: Geo, n: nat, old_cs: seq<seq<nat>>, cs: seq<seq<nat>>, k: nat, j: nat, a: nat)
    requires SplitUpTo(recs, m, n, old_cs, cs, k) && j < 2 * n && a in cs[j]
    ensures a in old_cs[if j < n then j else j - n]
  {
    var i := if j < n then j else j - n;
    StayMovedIn(recs, m, i, old_cs[i], a);
    assert i + n < |cs|;
    if i < k { assert cs[i] == Stay(recs, m, i, old_cs[i]); }
  }

  /** Splitting bucket `k` leaves every other slot as it was. */
  lemma {:induction false} SlotsAfterSplit(recs: Recs, next: Links, cells: Cells, m0: Geo, m: Geo, n: nat,
                        old_cs: seq<seq<nat>>, cs: seq<seq<nat>>, k: nat, next': Links, cells': Cells,
                            cs': seq<seq<nat>>)
    requires SplitUpTo(recs, m, n, old_cs, cs, k) && k < n && Slots(recs, next, cells, m, cs)
    requires forall i :: 0 <= i < n ==> Placed(recs, m0, i, old_cs[i])
    requires forall x :: x in cells && x != At(m, k) && x != At(m, k + n) ==> x in cells' && cells'[x] == cells[x]
    requires next'.Keys == next.Keys
    requires forall a :: a in next && a !in old_cs[k] ==> next'[a] == next[a]
    requires |cs'| == 2 * n && forall j :: 0 <= j < 2 * n && j != k && j != k + n ==> cs'[j] == cs[j]
    requires Slot(recs, next', cells', m, k, cs'[k]) && cells'[At(m, k)].state != Next
    requires Slot(recs, next', cells', m, k + n, cs'[k + n]) && cells'[At(m, k + n)].state != Next
    ensures Slots(recs, next', cells', m, cs')
  {
    forall j | 0 <= j < 2 * n && j != k && j != k + n
      ensures Slot(recs, next', cells', m, j, cs'[j]) && cells'[At(m, j)].state != Next
    {
      assert Slot(recs, next, cells, m, j, cs[j]) && cells[At(m, j)].state != Next;
      if cells[At(m, j)].state == Head { LinkedIn(next, cells[At(m, j)].head, cs[j]); }
      var i := if j < n then j else j - n;
      forall a | a in cs[j] ensures a !in old_cs[k] {
        SplitUpToIn(recs, m, n, old_cs, cs, k, j, a);
        assert Placed(recs, m0, i, old_cs[i]) && Placed(recs, m0, k, old_cs[k]);
      }
      SlotFrame(recs, next, cells, next', cells', m, j, cs[j]);
    }
  }

  /** When every bucket is split, the doubled table is in order again. */
  lemma {:induction false} SplitDone(recs: Recs, next: Links, cells: Cells, m0: Geo, m: Geo, old_cs: seq<seq<nat>>,
                                     cs: seq<seq<nat>>)
    requires m.shift == m0.shift && m.lcap == m0.lcap + 1
    requires SplitUpTo(recs, m, Cap(m0), old_cs, cs, Cap(m0)) && Slots(recs, next, cells, m, cs)
    requires forall i :: 0 <= i < |old_cs| ==> Placed(recs, m0, i, old_cs[i])
    ensures Table(recs, next, cells, m, cs)
  {
    var n := Cap(m0);
    forall j | 0 <= j < |cs| ensures Slot(recs, next, cells, m, j, cs[j]) && Placed(recs, m, j, cs[j]) {
      var i := if j < n then j else j - n;
      assert cs[i] == Stay(recs, m, i, old_cs[i]) && cs[i + n] == Moved(recs, m, i, old_cs[i]);
      forall a | a in cs[j] ensures Idx(m, Hashv(recs, a)) == j {
        StayMovedIn(recs, m, i, old_cs[i], a);
        assert Placed(recs, m0, i, old_cs[i]);
        IdxDouble(m0, Hashv(recs, a));
      }
    }
  }

  /** A doubling changes no answer of the table and keeps every record on the chain of its hash. */
  lemma {:induction false} SplitFind(recs: Recs, m0: Geo, m: Geo, old_cs: seq<seq<nat>>, cs: seq<seq<nat>>,
                                     hash: bytes -> u32, t: bytes)
    requires m.shift == m0.shift && m.lcap == m0.lcap + 1
    requires SplitUpTo(recs, m, Cap(m0), old_cs, cs, Cap(m0))
    requires forall i :: 0 <= i < |old_cs| ==> ChainOk(recs, old_cs[i])
    requires forall a <- recs :: recs[a].hashv == hash(recs[a].text)
    ensures Find(recs, m, cs, hash(t), t) == Find(recs, m0, old_cs, hash(t), t)
  {
    var h, n := hash(t), Cap(m0);
    var i, j := Idx(m0, h), Idx(m, h);
    IdxDouble(m0, h);
    assert cs[i] == Stay(recs, m, i, old_cs[i]) && cs[i + n] == Moved(recs, m, i, old_cs[i]);
    StayMovedOk(recs, m, i, old_cs[i]);
    forall a | Text(recs, a) == t ensures a in cs[j] <==> a in old_cs[i] {
      StayMovedIn(recs, m, i, old_cs[i], a);
    }
    LookupSame(recs, cs[j], old_cs[i], t);
  }

  lemma SplitIn(recs: Recs, m0: Geo, m: Geo, old_cs: seq<seq<nat>>, cs: seq<seq<nat>>, a: nat)
    requires m.shift == m0.shift && m.lcap == m0.lcap + 1
    requires SplitUpTo(recs, m, Cap(m0), old_cs, cs, Cap(m0))
    ensures a in cs[Idx(m, Hashv(recs, a))] <==> a in old_cs[Idx(m0, Hashv(recs, a))]
  {
    var i, n := Idx(m0, Hashv(recs, a)), Cap(m0);
    IdxDouble(m0, Hashv(recs, a));
    assert cs[i] == Stay(recs, m, i, old_cs[i]) && cs[i + n] == Moved(recs, m, i, old_cs[i]);
    StayMovedIn(recs, m, i, old_cs[i], a);
  }

  /** Extending the table by free buckets before any chain is split. */
  lemma {:induction false} SlotsGrown(recs: Recs, next: Links, cells: Cells, m0: Geo, m: Geo, cs: seq<seq<nat>>,
                                      cells': Cells)
    requires Table(recs, next, cells, m0, cs) && Slots(recs, next, cells, m0, cs)
    requires m.buckets == m0.buckets && m.shift == m0.shift && m.lcap == m0.lcap + 1
    requires forall i :: 0 <= i < Cap(m0) ==>
               At(m0, Cap(m0)) + BUCKET_SZ * i in cells' && cells'[At(m0, Cap(m0)) + BUCKET_SZ * i] == Bucket(Free, 0)
    requires forall x :: x in cells && x < At(m0, Cap(m0)) ==> x in cells' && cells'[x] == cells[x]
    ensures SplitUpTo(recs, m, Cap(m0), cs, cs + Empties(Cap(m0)), 0)
    ensures Slots(recs, next, cells', m, cs + Empties(Cap(m0)))
  {
    var n, d := Cap(m0), cs + Empties(Cap(m0));
    forall j | 0 <= j < |d| ensures Slot(recs, next, cells', m, j, d[j]) && cells'[At(m, j)].state != Next {
      if j < n {
        assert Slot(recs, next, cells, m0, j, cs[j]) && cells[At(m0, j)].state != Next;
        if cells[At(m0, j)].state == Head { LinkedIn(next, cells[At(m0, j)].head, cs[j]); }
        SlotFrame(recs, next, cells, next, cells', m0, j, cs[j]);
      } else {
        assert At(m, j) == At(m0, n) + BUCKET_SZ * (j - n);
      }
    }
  }

  /** The chains after one more bucket has been split. */
  ghost function SplitNextBucket(recs: Recs, m: Geo, n: nat, old_cs: seq<seq<nat>>, cs: seq<seq<nat>>,
                                 k: nat): seq<seq<nat>>
    requires |old_cs| == n && |cs| == 2 * n && k < n
  {
    cs[k := Stay(recs, m, k, old_cs[k])][k + n := Moved(recs, m, k, old_cs[k])]
  }

  lemma {:induction false} SplitNextBucketOk(recs: Recs, m: Geo, n: nat, old_cs: seq<seq<nat>>, cs: seq<seq<nat>>,
                                             k: nat)
    requires SplitUpTo(recs, m, n, old_cs, cs, k) && k < n
    ensures var cs' := SplitNextBucket(recs, m, n, old_cs, cs, k);
            && SplitUpTo(recs, m, n, old_cs, cs', k + 1)
            && Total(cs') == Total(cs)
            && Heads(cs') + (if old_cs[k] == [] then 0 else 1) == Heads(cs) + (if cs'[k] == [] then 0 else 1)
                + (if cs'[k + n] == [] then 0 else 1)
            && (old_cs[k] != [] ==> Heads(cs) >= 1) && (old_cs[k] == [] ==> cs'[k] == cs'[k + n] == [])
  {
    var s, v := Stay(recs, m, k, old_cs[k]), Moved(recs, m, k, old_cs[k]);
    assert cs[k + n] == [];
    CountUpdate(cs, k, s);
    CountUpdate(cs[k := s], k + n, v);
    StayMovedIn(recs, m, k, old_cs[k], 0);
  }
}
