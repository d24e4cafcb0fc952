/** The domain-list arena and its two hash tables. */
module DnlStore {
  import opened Bytes
  import opened DnlTable

  function AlignTo(sz: nat, align: nat): nat
    requires align > 0
  {
    var n := sz % align;
    if n != 0 then sz + (align - n) else sz
  }

  /** `n` free buckets in a row. */
  function FreeBuckets(addr: nat, n: nat): (r: Cells)
    ensures forall i :: 0 <= i < n ==> addr + BUCKET_SZ * i in r && r[addr + BUCKET_SZ * i] == Bucket(Free, 0)
    ensures forall x :: x in r ==> addr <= x
  {
    map i | 0 <= i < n :: addr + BUCKET_SZ * i := Bucket(Free, 0)
  }

  class Store {
    const hash: bytes -> u32 // calc_hashv
    var end: nat // s_end
    var recs: Recs
    var next: Links
    var cells: Cells
    var map1: MapHdr // L1
    var map2: MapHdr // L2

    ghost var cs1: seq<seq<nat>> // the chain in each L1 bucket
    ghost var cs2: seq<seq<nat>> // the chain in each L2 bucket
    ghost var spec: map<bytes, nat> // what both tables store: name => tag
    ghost var spec2: map<bytes, nat> // what L2 stores
    ghost var mem2: set<nat> // the records on L2 chains

    constructor (hash: bytes -> u32)
      ensures this.hash == hash && end == 0 && recs == map[] && next == map[] && cells == map[]
      ensures !map1.notnull && map1.nitems == map1.nlists == 0
      ensures !map2.notnull && map2.nitems == map2.nlists == 0
      ensures cs1 == [] && cs2 == [] && spec == spec2 == map[] && mem2 == {}
    {
      this.hash := hash;
      end, recs, next, cells := 0, map[], map[], map[];
      map1, map2 := MapHdr(false, Geo(0, 0, 0), 0, 0), MapHdr(false, Geo(0, 0, 0), 0, 0);
      cs1, cs2, spec, spec2, mem2 := [], [], map[], map[], {};
    }

    // -------------------------------------------------------------- invariants

    /** Every record is intact and its address fits a link field. */
    ghost predicate RecsOk()
      reads `recs, `next
    {
      forall a <- recs :: recs[a].hashv == hash(recs[a].text) && a < NAMEADDR_END && a in next
    }

    /** L1 exists; it lies behind all records and below L2, so nothing in the arena overlaps. */
    ghost predicate Base()
      reads `recs, `next, `map1, `map2, `end
    {
      && RecsOk() && map1.notnull && map1.geo.shift == 0 && Packed(recs, map1.geo.buckets)
      && At(map1.geo, Cap(map1.geo)) <= (if map2.notnull then map2.geo.buckets else end)
    }

    ghost predicate L2Table()
      reads `recs, `next, `cells, `map1, `map2, `cs2, `end
    {
      && Table(recs, next, cells, map2.geo, cs2) && Slots(recs, next, cells, map2.geo, cs2) && Counted(map2, cs2)
      && map2.geo.shift == map1.geo.lcap && map2.geo.lcap >= DEFAULT_LCAP
      && map2.geo.buckets % BUCKET_SZ == 0 && At(map2.geo, Cap(map2.geo)) == end
    }

    ghost predicate L2Ok()
      reads `recs, `next, `cells, `map1, `map2, `cs2, `end
    {
      if map2.notnull then L2Table() && map2.nitems <= MaxLoad(map2.geo)
      else cs2 == [] && map2.nitems == map2.nlists == 0
    }

    /** The tag L2 holds for `t`. */
    ghost function Get2(t: bytes): Option<nat>
      reads `recs, `map2, `cs2
    {
      if map2.notnull && |cs2| == Cap(map2.geo) then Find(recs, map2.geo, cs2, hash(t), t) else None
    }

    /** Record `a` is on the L2 chain its hash selects. */
    ghost predicate In2(a: nat)
      reads `recs, `map2, `cs2
    {
      map2.notnull && |cs2| == Cap(map2.geo) && Member(recs, map2.geo, cs2, a)
    }

    /** The ghost views of L2 are what its chains say. */
    ghost predicate View2()
      reads `recs, `map2, `cs2, `spec2, `mem2
    {
      && (forall t {:trigger Get2(t)} :: Get2(t) == if t in spec2 then Some(spec2[t]) else None)
      && (forall a {:trigger In2(a)} :: In2(a) <==> a in mem2)
    }

    /** L1: chains of bounded length over records that L2 does not hold. */
    ghost predicate L1Ok()
      reads `recs, `next, `cells, `map1, `cs1, `mem2
    {
      && Table(recs, next, cells, map1.geo, cs1) && map1.nlists == Heads(cs1)
      && Bounded(cs1, MAX_COLLISION, mem2)
    }

    /** The two tables together hold `spec`. */
    ghost predicate View1()
      reads `recs, `cells, `map1, `cs1, `spec2, `spec
    {
      ViewOf(recs, cells, map1.geo, cs1, spec2, spec, hash)
    }

    ghost function State1(t: bytes): State
      reads `cells, `map1
    {
      StateAt(cells, map1.geo, hash(t))
    }

    ghost function Get12(t: bytes): Option<nat>
      reads `recs, `cells, `map1, `cs1, `spec2
    {
      Both(recs, cells, map1.geo, cs1, spec2, hash(t), t)
    }

    /** dnl_nitems counts the names. */
    ghost predicate CountsOk()
      reads `map1, `map2, `cs1, `spec2, `spec
    {
      map1.nitems == Total(cs1) && map2.nitems == |spec2| && map1.nitems + map2.nitems == |spec|
    }

    /** A marked L1 bucket sends lookups to L2, which then exists. */
    ghost predicate MarkedOk()
      reads `cells, `map1, `map2
    {
      forall h: u32 :: StateAt(cells, map1.geo, h) == Next ==> map2.notnull
    }

    ghost predicate Ready()
      reads this
    {
      Base() && L2Ok() && View2() && L1Ok() && View1() && CountsOk() && MarkedOk()
    }

    // -------------------------------------------------------------- arena

    method Alloc(sz: nat, align: nat) returns (addr: nat)
      requires (align == 1 || align == BUCKET_SZ) // the alignments of the two structs
      modifies `end
      ensures old(end) <= addr < old(end) + align && addr % align == 0 && end == addr + sz
    {
      end := AlignTo(end, align);
      end := end + sz;
      addr := end - sz;
    }

    /** Fresh arena memory is zero, which is a free bucket. */
    method AllocBuckets(n: nat) returns (addr: nat)
      modifies `end, `cells
      ensures old(end) <= addr < old(end) + BUCKET_SZ && addr % BUCKET_SZ == 0 && end == addr + BUCKET_SZ * n
      ensures addr % 4 == 0 && end == addr + 4 * n
      ensures forall i :: 0 <= i < n ==> addr + BUCKET_SZ * i in cells && cells[addr + BUCKET_SZ * i] == Bucket(Free, 0)
      ensures forall x :: x in old(cells) && x < addr ==> x in cells && cells[x] == old(cells)[x]
    {
      addr := Alloc(BUCKET_SZ * n, BUCKET_SZ);
      cells := cells + FreeBuckets(addr, n);
    }

    // -------------------------------------------------------------- L2 growth

    /** Takes record `cur`, the `p`-th of chain `c`, out; a bucket left empty is freed. */
    method Unlink(idx: nat, prev: Option<nat>, cur: nat, ghost c: seq<nat>, ghost p: nat)
      requires At(map2.geo, idx) in cells && cells[At(map2.geo, idx)].state == Head && map2.nlists >= 1
      requires Linked(next, cells[At(map2.geo, idx)].head, c) && ChainOk(recs, c) && p < |c| && c[p] == cur
      requires prev == if p == 0 then None else Some(c[p - 1])
      modifies `next, `cells, `map2
      ensures map2 == old(map2).(nlists := old(map2).nlists - (if |c| == 1 then 1 else 0))
      ensures cells.Keys == old(cells).Keys && next.Keys == old(next).Keys
      ensures forall x :: x in old(cells) && x != At(map2.geo, idx) ==> cells[x] == old(cells)[x]
      ensures forall a :: a in old(next) && prev != Some(a) ==> next[a] == old(next)[a]
      ensures cells[At(map2.geo, idx)].state != Next && Holds(next, cells[At(map2.geo, idx)], Without(c, p))
    {
      LinkedAt(next, cells[At(map2.geo, idx)].head, c, p);
      assert c[p..][1..] == c[p + 1..];
      LinkedIn(next, cells[At(map2.geo, idx)].head, c);
      if prev.Some? {
        ChainPrev(recs, c, p);
        LinkedUnlink(next, cells[At(map2.geo, idx)].head, c, p);
        next := next[prev.value := next[cur]];
      } else if next[cur] != NAMEADDR_END {
        cells := cells[At(map2.geo, idx) := cells[At(map2.geo, idx)].(head := next[cur])];
      } else {
        assert c[1..] == [];
        cells := cells[At(map2.geo, idx) := cells[At(map2.geo, idx)].(state := Free)];
        map2 := map2.(nlists := map2.nlists - 1);
      }
    }

    /** store_as_head on a free bucket, store_as_body on a list. */
    method Store(idx: nat, cur: nat, ghost c: seq<nat>)
      requires At(map2.geo, idx) in cells && cells[At(map2.geo, idx)].state != Next
      requires Holds(next, cells[At(map2.geo, idx)], c) && cur !in c && cur < NAMEADDR_END && cur in next
      modifies `next, `cells, `map2
      ensures map2 == old(map2).(nlists := old(map2).nlists + (if c == [] then 1 else 0))
      ensures cells == old(cells)[At(map2.geo, idx) := Bucket(Head, cur)]
      ensures next == old(next)[cur := if c == [] then NAMEADDR_END else old(cells)[At(map2.geo, idx)].head]
      ensures Linked(next, cur, [cur] + c)
    {
      var bucket := cells[At(map2.geo, idx)];
      assert ([cur] + c)[1..] == c;
      if bucket.state == Free {
        cells := cells[At(map2.geo, idx) := Bucket(Head, cur)];
        next := next[cur := NAMEADDR_END];
        map2 := map2.(nlists := map2.nlists + 1);
      } else {
        assert bucket.state == Head;
        LinkedIn(next, bucket.head, c);
        LinkedFrame(next, next[cur := bucket.head], bucket.head, c);
        next := next[cur := bucket.head];
        cells := cells[At(map2.geo, idx) := Bucket(Head, cur)];
      }
    }

    /** Record `cur`, the `p`-th of chain `c`, moves to the front of its partner's chain. */
    method MoveOne(idx: nat, newidx: nat, prev: Option<nat>, cur: nat, ghost c: seq<nat>, ghost p: nat,
                   ghost moved: seq<nat>)
      requires At(map2.geo, idx) in cells && At(map2.geo, newidx) in cells && idx != newidx
      requires cells[At(map2.geo, idx)].state == Head && cells[At(map2.geo, newidx)].state != Next
      requires Linked(next, cells[At(map2.geo, idx)].head, c) && ChainOk(recs, c) && p < |c| && c[p] == cur
      requires Holds(next, cells[At(map2.geo, newidx)], moved) && (forall a <- moved :: a !in c)
      requires prev == if p == 0 then None else Some(c[p - 1])
      requires map2.nlists >= 1
      modifies `next, `cells, `map2
      ensures map2 == old(map2).(nlists := old(map2).nlists - (if |c| == 1 then 1 else 0)
              + (if moved == [] then 1 else 0))
      ensures cells.Keys == old(cells).Keys && next.Keys == old(next).Keys
      ensures cells[At(map2.geo, idx)].state != Next && cells[At(map2.geo, newidx)].state == Head
      ensures Holds(next, cells[At(map2.geo, idx)], Without(c, p))
      ensures Linked(next, cells[At(map2.geo, newidx)].head, [cur] + moved)
      ensures forall x :: x in old(cells) && x != At(map2.geo, idx) && x != At(map2.geo, newidx) ==>
                cells[x] == old(cells)[x]
      ensures forall a :: a in old(next) && a !in c ==> next[a] == old(next)[a]
    {
      hide Linked;
      hide Holds;
      hide ChainOk;
      ChainRemove(recs, c, p);
      LinkedIn(next, cells[At(map2.geo, idx)].head, c);
      assert cur in c && (prev.Some? ==> prev.value in c);
      ghost var next0 := next;
      Unlink(idx, prev, cur, c, p);
      HoldsFrame(next0, next, cells[At(map2.geo, newidx)], moved);
      ghost var next1 := next;
      Store(newidx, cur, moved);
      HoldsFrame(next1, next, cells[At(map2.geo, idx)], Without(c, p));
    }

    /** Where the split of bucket `idx` with chain `c0` stands after `k` records. */
    ghost predicate Splitting(idx: nat, n: nat, c0: seq<nat>, k: nat)
      reads this
    {
      && k <= |c0| && At(map2.geo, idx) in cells && At(map2.geo, idx + n) in cells
      && cells[At(map2.geo, idx)].state != Next && cells[At(map2.geo, idx + n)].state != Next
      && Holds(next, cells[At(map2.geo, idx)], RestN(recs, map2.geo, idx, c0, k))
      && Holds(next, cells[At(map2.geo, idx + n)], MovedN(recs, map2.geo, idx, c0, k))
    }

    /** How many of the two buckets hold a list at that point. */
    ghost function SplitHeads(idx: nat, c0: seq<nat>, k: nat): nat
      requires k <= |c0|
      reads this
    {
      (if RestN(recs, map2.geo, idx, c0, k) == [] then 0 else 1)
          + (if MovedN(recs, map2.geo, idx, c0, k) == [] then 0 else 1)
    }

    /** One turn of the loop over the chain of bucket `idx`. */
    method SplitNext(idx: nat, n: nat, prev: Option<nat>, cur: nat, ghost c0: seq<nat>, ghost k: nat)
      returns (prev': Option<nat>, nextaddr: nat)
      requires n > 0 && k < |c0| && cur == c0[k] && ChainOk(recs, c0) && map2.nlists >= 1
      requires Splitting(idx, n, c0, k) && prev == PrevN(recs, map2.geo, idx, c0, k)
      requires Idx(map2.geo, Hashv(recs, cur)) == idx || Idx(map2.geo, Hashv(recs, cur)) == idx + n
      modifies `next, `cells, `map2
      ensures map2 == old(map2).(nlists := map2.nlists)
      ensures Splitting(idx, n, c0, k + 1) && prev' == PrevN(recs, map2.geo, idx, c0, k + 1)
      ensures if k + 1 == |c0| then nextaddr == NAMEADDR_END else nextaddr == c0[k + 1] < NAMEADDR_END
      ensures map2.nlists - SplitHeads(idx, c0, k + 1) == old(map2.nlists - SplitHeads(idx, c0, k))
      ensures cells.Keys == old(cells).Keys && next.Keys == old(next).Keys
      ensures forall x :: x in old(cells) && x != At(map2.geo, idx) && x != At(map2.geo, idx + n) ==>
                cells[x] == old(cells)[x]
      ensures forall a :: a in old(next) && a !in c0 ==> next[a] == old(next)[a]
    {
      hide KeptN;
      hide Idx;
      hide At;
      ghost var c, p := RestN(recs, map2.geo, idx, c0, k), KeptN(recs, map2.geo, idx, c0, k);
      RestAt(recs, map2.geo, idx, c0, k);
      LinkedNext(next, cells[At(map2.geo, idx)].head, c, p);
      nextaddr := next[cur];
      var newidx := Idx(map2.geo, recs[cur].hashv);
      if newidx == idx {
        prev' := Some(cur);
      } else {
        prev' := prev;
        RestChain(recs, map2.geo, idx, c0, k);
        MoveOne(idx, newidx, prev, cur, c, p, MovedN(recs, map2.geo, idx, c0, k));
      }
    }

    /** The loop over the chain of one bucket. */
    method SplitChain(idx: nat, n: nat, ghost c0: seq<nat>)
      requires 2 * n == Cap(map2.geo) && idx < n && map2.nlists >= 1
      requires At(map2.geo, idx) in cells && At(map2.geo, idx + n) in cells
      requires cells[At(map2.geo, idx)].state == Head && cells[At(map2.geo, idx + n)].state == Free
      requires Linked(next, cells[At(map2.geo, idx)].head, c0) && c0 != [] && ChainOk(recs, c0)
      requires forall a <- c0 :: Idx(map2.geo, Hashv(recs, a)) == idx || Idx(map2.geo, Hashv(recs, a)) == idx + n
      modifies `next, `cells, `map2
      ensures map2 == old(map2).(nlists := map2.nlists)
      ensures Splitting(idx, n, c0, |c0|)
      ensures map2.nlists == old(map2).nlists - 1 + SplitHeads(idx, c0, |c0|)
      ensures cells.Keys == old(cells).Keys && next.Keys == old(next).Keys
      ensures forall x :: x in old(cells) && x != At(map2.geo, idx) && x != At(map2.geo, idx + n) ==>
                cells[x] == old(cells)[x]
      ensures forall a :: a in old(next) && a !in c0 ==> next[a] == old(next)[a]
    {
      hide ChainOk;
      hide KeptN;
      hide At;
      hide Idx;
      var prev: Option<nat> := None;
      var cur := cells[At(map2.geo, idx)].head;
      ghost var k := 0;
      LinkedNext(next, cur, c0, 0);
      while cur != NAMEADDR_END
        invariant k <= |c0| && (if k == |c0| then cur == NAMEADDR_END else cur == c0[k] < NAMEADDR_END)
        invariant map2 == old(map2).(nlists := map2.nlists)
        invariant map2.nlists == old(map2).nlists - 1 + SplitHeads(idx, c0, k)
        invariant Splitting(idx, n, c0, k) && prev == PrevN(recs, map2.geo, idx, c0, k)
        invariant cells.Keys == old(cells).Keys && next.Keys == old(next).Keys
        invariant forall x :: x in old(cells) && x != At(map2.geo, idx) && x != At(map2.geo, idx + n) ==>
                    cells[x] == old(cells)[x]
        invariant forall a :: a in old(next) && a !in c0 ==> next[a] == old(next)[a]
        decreases |c0| - k
      {
        RestAt(recs, map2.geo, idx, c0, k);
        assert c0[k] in c0;
        prev, cur := SplitNext(idx, n, prev, cur, c0, k);
        k := k + 1;
      }
    }

    /** Empties one bucket of the doubled table into itself and its partner,
        keeping the order of what stays and reversing what moves. */
    method SplitBucket(idx: nat, n: nat, ghost c0: seq<nat>)
      requires 2 * n == Cap(map2.geo) && idx < n && map2.nlists >= 1
      requires Slot(recs, next, cells, map2.geo, idx, c0) && Slot(recs, next, cells, map2.geo, idx + n, [])
      requires cells[At(map2.geo, idx)].state == Head && cells[At(map2.geo, idx + n)].state != Next
      requires forall a <- c0 :: Idx(map2.geo, Hashv(recs, a)) == idx || Idx(map2.geo, Hashv(recs, a)) == idx + n
      modifies `next, `cells, `map2
      ensures map2 == old(map2).(nlists := map2.nlists)
      ensures Slot(recs, next, cells, map2.geo, idx, Stay(recs, map2.geo, idx, c0))
      ensures Slot(recs, next, cells, map2.geo, idx + n, Moved(recs, map2.geo, idx, c0))
      ensures cells[At(map2.geo, idx)].state != Next && cells[At(map2.geo, idx + n)].state != Next
      ensures map2.nlists == old(map2).nlists - 1 + (if Stay(recs, map2.geo, idx, c0) == [] then 0 else 1)
                                                  + (if Moved(recs, map2.geo, idx, c0) == [] then 0 else 1)
      ensures next.Keys == old(next).Keys
      ensures forall x :: x in old(cells) && x != At(map2.geo, idx) && x != At(map2.geo, idx + n) ==>
                x in cells
                && cells[x] == old(cells)[x]
      ensures forall a :: a in old(next) && a !in c0 ==> next[a] == old(next)[a]
    {
      RestEnd(recs, map2.geo, idx, c0);
      StayMovedOk(recs, map2.geo, idx, c0);
      SplitChain(idx, n, c0);
    }

    /** One round of the doubling loop: bucket `idx` is split unless it holds no list. */
    method SplitOne(idx: nat, n: nat, ghost m0: Geo, ghost cs0: seq<seq<nat>>, ghost cs: seq<seq<nat>>)
      returns (ghost cs': seq<seq<nat>>)
      requires idx < n == Cap(m0) && map2.geo == m0.(lcap := m0.lcap + 1)
      requires SplitUpTo(recs, map2.geo, n, cs0, cs, idx) && Slots(recs, next, cells, map2.geo, cs)
      requires forall i :: 0 <= i < n ==> Placed(recs, m0, i, cs0[i])
      requires map2.nitems == Total(cs) && map2.nlists == Heads(cs)
      modifies `next, `cells, `map2
      ensures map2 == old(map2).(nlists := map2.nlists)
      ensures SplitUpTo(recs, map2.geo, n, cs0, cs', idx + 1) && Slots(recs, next, cells, map2.geo, cs')
      ensures map2.nitems == Total(cs') && map2.nlists == Heads(cs')
      ensures next.Keys == old(next).Keys
      ensures forall a :: a in next && !Member(recs, m0, cs0, a) ==> next[a] == old(next)[a]
      ensures forall x :: x in old(cells) && x < map2.geo.buckets ==> x in cells && cells[x] == old(cells)[x]
    {
      hide Linked;
      hide Counted;
      hide Idx;
      hide ChainOk;
      ghost var c0 := cs0[idx];
      ghost var next0, cells0 := next, cells;
      assert Slot(recs, next, cells, map2.geo, idx, cs[idx]) && Slot(recs, next, cells, map2.geo, idx + n, cs[idx + n]);
      cs' := SplitNextBucket(recs, map2.geo, n, cs0, cs, idx);
      SplitNextBucketOk(recs, map2.geo, n, cs0, cs, idx);
      if cells[At(map2.geo, idx)].state == Head {
        InPair(m0, idx, n, c0);
        SplitBucket(idx, n, c0);
      }
      SlotsAfterSplit(recs, next0, cells0, m0, map2.geo, n, cs0, cs, idx, next, cells, cs');
    }

    lemma InPair(m0: Geo, idx: nat, n: nat, c0: seq<nat>)
      requires n == Cap(m0) && map2.geo == m0.(lcap := m0.lcap + 1) && Placed(recs, m0, idx, c0)
      ensures forall a <- c0 :: Idx(map2.geo, Hashv(recs, a)) == idx || Idx(map2.geo, Hashv(recs, a)) == idx + n
    {
      forall a | a in c0 ensures Idx(map2.geo, Hashv(recs, a)) == idx || Idx(map2.geo, Hashv(recs, a)) == idx + n {
        IdxDouble(m0, Hashv(recs, a));
      }
    }

    /** The loop over the buckets of the old half. */
    method SplitAll(ghost m0: Geo, ghost cs0: seq<seq<nat>>, ghost cs: seq<seq<nat>>) returns (ghost cs': seq<seq<nat>>)
      requires map2.geo == m0.(lcap := m0.lcap + 1)
      requires SplitUpTo(recs, map2.geo, Cap(m0), cs0, cs, 0) && Slots(recs, next, cells, map2.geo, cs)
      requires Counted(map2, cs)
      requires forall i :: 0 <= i < |cs0| ==> Placed(recs, m0, i, cs0[i])
      modifies `next, `cells, `map2
      ensures map2 == old(map2).(nlists := map2.nlists)
      ensures SplitUpTo(recs, map2.geo, Cap(m0), cs0, cs', Cap(m0)) && Slots(recs, next, cells, map2.geo, cs')
      ensures Counted(map2, cs')
      ensures next.Keys == old(next).Keys
      ensures forall a :: a in next && !Member(recs, m0, cs0, a) ==> next[a] == old(next)[a]
      ensures forall x :: x in old(cells) && x < map2.geo.buckets ==> x in cells && cells[x] == old(cells)[x]
    {
      cs' := cs;
      var idx, n := 0, Cap(map2.geo) / 2;
      while idx < n
        invariant n == Cap(m0) && idx <= n && map2 == old(map2).(nlists := map2.nlists)
        invariant SplitUpTo(recs, map2.geo, n, cs0, cs', idx) && Slots(recs, next, cells, map2.geo, cs')
        invariant Counted(map2, cs')
        invariant next.Keys == old(next).Keys
        invariant forall a :: a in next && !Member(recs, m0, cs0, a) ==> next[a] == old(next)[a]
        invariant forall x :: x in old(cells) && x < map2.geo.buckets ==> x in cells && cells[x] == old(cells)[x]
      {
        cs' := SplitOne(idx, n, m0, cs0, cs');
        idx := idx + 1;
      }
    }

    /** Doubles L2 in place. */
    method GrowMap2()
      requires L2Table()
      modifies `next, `cells, `map2, `end, `cs2
      ensures map2 == old(map2).(geo := old(map2.geo).(lcap := old(map2.geo).lcap + 1), nlists := map2.nlists)
      ensures SplitUpTo(recs, map2.geo, Cap(old(map2.geo)), old(cs2), cs2, Cap(old(map2.geo)))
      ensures L2Table()
      ensures next.Keys == old(next).Keys
      ensures forall a :: a in next && !Member(recs, old(map2.geo), old(cs2), a) ==> next[a] == old(next)[a]
      ensures forall x :: x in old(cells) && x < map2.geo.buckets ==> x in cells && cells[x] == old(cells)[x]
    {
      hide Slots;
      hide Slot;
      hide Placed;
      hide Total;
      hide Heads;
      hide Idx;
      hide Cap;
      hide SplitUpTo;
      hide Empties;
      ghost var m0, cs0, next0, cells0 := map2.geo, cs2, next, cells;
      ghost var cs := cs0 + Empties(Cap(m0));
      assert forall i :: 0 <= i < |cs0| ==> Placed(recs, m0, i, cs0[i]);
      var addr := AllocBuckets(Cap(map2.geo)); // may move the arena
      assert addr == At(map2.geo, Cap(map2.geo)); // the new buckets directly follow the old ones
      map2 := map2.(geo := map2.geo.(lcap := map2.geo.lcap + 1));
      SlotsGrown(recs, next0, cells0, m0, map2.geo, cs0, cells);
      CountEmpties(cs0, Cap(m0));
      cs2 := SplitAll(m0, cs0, cs);
      SplitDone(recs, next, cells, m0, map2.geo, cs0, cs2);
    }

    /** resize_map2: doubles L2 when it has reached its maximal load. */
    method ResizeMap2() returns (grown: bool)
      requires Base() && L2Ok() && map2.notnull && View2()
      modifies `next, `cells, `map2, `end, `cs2
      ensures grown <==> old(map2.nitems >= MaxLoad(map2.geo))
      ensures !grown ==>
                map2 == old(map2) && cs2 == old(cs2) && next == old(next) && cells == old(cells)
                && end == old(end)
      ensures grown ==> map2.geo == old(map2.geo).(lcap := old(map2.geo).lcap + 1)
      ensures grown ==> SplitUpTo(recs, map2.geo, Cap(old(map2.geo)), old(cs2), cs2, Cap(old(map2.geo)))
      ensures map2.notnull && map2.nitems == old(map2.nitems) && map2.nitems < MaxLoad(map2.geo)
      ensures Base() && L2Ok() && View2()
      ensures next.Keys == old(next).Keys && forall a :: a in next && a !in mem2 ==> next[a] == old(next)[a]
      ensures forall x :: x in old(cells) && x < map2.geo.buckets ==> x in cells && cells[x] == old(cells)[x]
    {
      hide Packed;
      if map2.nitems < MaxLoad(map2.geo) { return false; }
      ghost var m0, cs0 := map2.geo, cs2;
      assert forall i :: 0 <= i < |cs0| ==> ChainOk(recs, cs0[i]);
      GrowMap2();
      assert View2() by {
        forall t ensures Get2(t) == old(Get2(t)) { SplitFind(recs, m0, map2.geo, cs0, cs2, hash, t); }
        forall a ensures In2(a) == old(In2(a)) { SplitIn(recs, m0, map2.geo, cs0, cs2, a); }
      }
      forall a | a in next && a !in mem2 ensures next[a] == old(next)[a] { assert !old(In2(a)); }
      return true;
    }

    // -------------------------------------------------------------- L2 insertion

    /** return_if_exists: whether a chain already has the name of record `addr`; if not, the chain's length. */
    method ExistsIn(head: nat, addr: nat, ghost c: seq<nat>) returns (found: bool, n: nat)
      requires RecsOk() && addr in recs && Linked(next, head, c) && ChainOk(recs, c)
      ensures found <==> Lookup(recs, c, recs[addr].text).Some?
      ensures !found ==> n == |c|
    {
      var cur := head;
      n := 0;
      found := false;
      while cur != NAMEADDR_END
        invariant n <= |c| && Linked(next, cur, c[n..])
        invariant Lookup(recs, c, recs[addr].text) == Lookup(recs, c[n..], recs[addr].text)
        decreases |c| - n
      {
        assert cur == c[n] && c[n] in c && c[n..][1..] == c[n + 1..];
        if cur == addr || (recs[cur].hashv == recs[addr].hashv && recs[cur].text == recs[addr].text) { return true, n; }
        cur := next[cur];
        n := n + 1;
      }
      assert c[n..] == [];
    }

    /** Record `addr` may be on no chain of L2 unless its name is there already. */
    lemma {:induction false} NotInUnlessFound(addr: nat)
      requires L2Ok() && map2.notnull && addr in recs && RecsOk()
      ensures In2(addr) ==> Get2(recs[addr].text).Some?
    {
      if In2(addr) {
        var i := Idx(map2.geo, recs[addr].hashv);
        assert Slot(recs, next, cells, map2.geo, i, cs2[i]);
        LookupHit(recs, cs2[i], addr);
      }
    }

    /** The final store of add_to_map2, when the name is new and there is room. */
    method StoreIn2(addr: nat)
      requires L2Ok() && map2.notnull && map2.nitems < MaxLoad(map2.geo)
      requires addr in recs && addr in next && addr < NAMEADDR_END
      requires Find(recs, map2.geo, cs2, recs[addr].hashv, recs[addr].text).None?
      requires !Member(recs, map2.geo, cs2, addr)
      modifies `next, `cells, `map2, `cs2
      ensures L2Ok() && map2.geo == old(map2.geo) && map2.notnull && map2.nitems == old(map2.nitems) + 1
      ensures var i := Idx(map2.geo, recs[addr].hashv);
              cs2 == old(cs2)[i := [addr] + old(cs2)[i]] && cells == old(cells)[At(map2.geo, i) := Bucket(Head, addr)]
      ensures next.Keys == old(next).Keys && forall a :: a in next && a != addr ==> next[a] == old(next)[a]
    {
      hide Linked;
      hide Placed;
      hide Total;
      hide Heads;
      hide Pow2;
      hide MaxLoad;
      hide ChainOk;
      ghost var next0, cells0, cs0, m := next, cells, cs2, map2.geo;
      var idx := Idx(map2.geo, recs[addr].hashv);
      ghost var c := cs2[idx];
      assert Slot(recs, next, cells, m, idx, c) && cells[At(m, idx)].state != Next;
      CountUpdate(cs0, idx, [addr] + c);
      Store(idx, addr, c);
      map2 := map2.(nitems := map2.nitems + 1);
      cs2 := cs0[idx := [addr] + c];
      Stored(recs, next0, cells0, m, cs0, addr, next, cells, idx);
    }

    /** What that store means for the answers of L2. */
    method InsertIn2(addr: nat)
      requires Base() && L2Ok() && map2.notnull && map2.nitems < MaxLoad(map2.geo) && View2()
      requires addr in recs && recs[addr].text !in spec2
      modifies `next, `cells, `map2, `cs2, `spec2, `mem2
      ensures Base() && L2Ok() && map2.notnull && map2.nitems == old(map2.nitems) + 1 && View2()
      ensures spec2 == old(spec2)[recs[addr].text := recs[addr].tag] && mem2 == old(mem2) + {addr}
      ensures next.Keys == old(next).Keys && forall a :: a in next && a !in mem2 ==> next[a] == old(next)[a]
      ensures forall x :: x in old(cells) && x < At(map1.geo, Cap(map1.geo)) ==> x in cells && cells[x] == old(cells)[x]
    {
      hide Packed;
      hide Slot;
      hide Counted;
      hide Find;
      hide Idx;
      ghost var cs0, m, i := cs2, map2.geo, Idx(map2.geo, recs[addr].hashv);
      assert Get2(recs[addr].text).None?;
      NotInUnlessFound(addr);
      StoreIn2(addr);
      spec2 := spec2[recs[addr].text := recs[addr].tag];
      mem2 := mem2 + {addr};
      assert View2() by {
        forall t ensures Get2(t) == if t in spec2 then Some(spec2[t]) else None {
          assert old(Get2(t)) == if t in old(spec2) then Some(old(spec2)[t]) else None;
          StoredFind(recs, m, cs0, addr, hash, t);
        }
        forall a ensures In2(a) <==> a in mem2 {
          assert old(In2(a)) <==> a in old(mem2);
          StoredIn(recs, m, cs0, addr, a);
        }
      }
    }

    /** map_set_notnull for L2. */
    method InitMap2()
      requires Base() && L2Ok() && !map2.notnull && View2()
      modifies `cells, `map2, `end, `cs2
      ensures Base() && L2Ok() && map2.notnull && map2.nitems == 0 && View2()
      ensures forall x :: x in old(cells) && x < At(map1.geo, Cap(map1.geo)) ==> x in cells && cells[x] == old(cells)[x]
    {
      hide Packed;
      var lcap := DEFAULT_LCAP;
      assert Pow2(lcap) == 16 by { assert Pow2(2) == 4; assert Pow2(3) == 8; }
      var buckets := AllocBuckets(Pow2(lcap));
      map2 := MapHdr(true, Geo(buckets, lcap, map1.geo.lcap), map2.nlists, map2.nitems);
      cs2 := [] + Empties(16);
      CountEmpties([], 16);
      FreshTable(recs, next, cells, map2.geo, cs2);
      assert View2() by {
        forall t ensures Get2(t).None? && t !in spec2 { assert old(Get2(t)).None?; }
        forall a ensures !In2(a) && a !in mem2 { assert !old(In2(a)); }
      }
    }

    /** One pass over the label `redo`: done, or L2 has been doubled and the pass must be repeated. */
    method TryAddToMap2(addr: nat) returns (done: bool)
      requires Base() && L2Ok() && map2.notnull && addr in recs && View2()
      modifies `next, `cells, `map2, `end, `cs2, `spec2, `mem2
      ensures Base() && L2Ok() && map2.notnull && View2()
      ensures !done ==> old(map2.nitems >= MaxLoad(map2.geo)) && map2.nitems < MaxLoad(map2.geo)
      ensures var t := recs[addr].text;
              if t in old(spec2) || !done then
                spec2 == old(spec2) && mem2 == old(mem2) && map2.nitems == old(map2.nitems)
              else
                && spec2 == old(spec2)[t := recs[addr].tag] && mem2 == old(mem2) + {addr}
                && map2.nitems == old(map2.nitems) + 1
      ensures next.Keys == old(next).Keys && forall a :: a in next && a !in mem2 ==> next[a] == old(next)[a]
      ensures forall x :: x in old(cells) && x < At(map1.geo, Cap(map1.geo)) ==> x in cells && cells[x] == old(cells)[x]
    {
      hide Packed;
      hide Counted;
      hide ChainOk;
      hide Idx;
      hide At;
      hide Cap;
      hide MaxLoad;
      var idx := Idx(map2.geo, recs[addr].hashv);
      assert Slot(recs, next, cells, map2.geo, idx, cs2[idx]) && cells[At(map2.geo, idx)].state != Next;
      assert Get2(recs[addr].text) == Lookup(recs, cs2[idx], recs[addr].text);
      var bucket := cells[At(map2.geo, idx)];
      if bucket.state != Free {
        assert bucket.state == Head;
        var found, _ := ExistsIn(bucket.head, addr, cs2[idx]);
        if found { return true; }
      }
      var grown := ResizeMap2();
      if grown { return false; }
      InsertIn2(addr);
      return true;
    }

    /** add_to_map2: the name goes into L2 unless L2 has it. The label `redo`
        is jumped to at most once: a doubled table has room. */
    method AddToMap2(addr: nat)
      requires Base() && L2Ok() && addr in recs && View2()
      modifies `next, `cells, `map2, `end, `cs2, `spec2, `mem2
      ensures Base() && L2Ok() && map2.notnull && View2()
      ensures var t := recs[addr].text;
              && spec2 == PutNew(old(spec2), recs[addr])
              && mem2 == old(mem2) + (if t in old(spec2) then {} else {addr})
              && map2.nitems == old(map2.nitems) + (if t in old(spec2) then 0 else 1)
      ensures next.Keys == old(next).Keys && forall a :: a in next && a !in mem2 ==> next[a] == old(next)[a]
      ensures forall x :: x in old(cells) && x < At(map1.geo, Cap(map1.geo)) ==> x in cells && cells[x] == old(cells)[x]
    {
      hide Packed;
      if !map2.notnull { InitMap2(); }
      var done := TryAddToMap2(addr);
      if !done {
        done := TryAddToMap2(addr); // redo
        assert done;
      }
    }

    // -------------------------------------------------------------- L1 insertion

    /** store_as_head or store_as_body on the L1 bucket of a record. */
    method PutIn1(addr: nat, ghost c: seq<nat>)
      requires addr in recs && addr in next
      requires Slot(recs, next, cells, map1.geo, Idx(map1.geo, recs[addr].hashv), c)
      requires cells[At(map1.geo, Idx(map1.geo, recs[addr].hashv))].state != Next
      modifies `next, `cells, `map1
      ensures map1 == old(map1).(nitems := old(map1).nitems + 1, nlists := old(map1).nlists
              + (if c == [] then 1 else 0))
      ensures var x := At(map1.geo, Idx(map1.geo, recs[addr].hashv));
              && cells == old(cells)[x := Bucket(Head, addr)]
              && next == old(next)[addr := if c == [] then NAMEADDR_END else old(cells)[x].head]
    {
      var idx := Idx(map1.geo, recs[addr].hashv);
      var bucket := cells[At(map1.geo, idx)];
      if bucket.state == Free {
        next := next[addr := NAMEADDR_END];
        map1 := map1.(nlists := map1.nlists + 1);
      } else {
        assert bucket.state == Head;
        next := next[addr := bucket.head];
      }
      cells := cells[At(map1.geo, idx) := Bucket(Head, addr)];
      map1 := map1.(nitems := map1.nitems + 1);
    }

    /** L2 does not notice what happens to L1 and to records it does not hold. */
    lemma L2Kept(next0: Links, cells0: Cells)
      requires map2.notnull ==> Table(recs, next0, cells0, map2.geo, cs2) && Slots(recs, next0, cells0, map2.geo, cs2)
      requires map2.notnull ==> forall x :: x in cells0 && x >= map2.geo.buckets ==> x in cells && cells[x] == cells0[x]
      requires next.Keys == next0.Keys && forall a :: a in next && In2(a) ==> next[a] == next0[a]
      ensures map2.notnull ==> Table(recs, next, cells, map2.geo, cs2) && Slots(recs, next, cells, map2.geo, cs2)
    {
      if map2.notnull {
        forall a | a in next0 && Member(recs, map2.geo, cs2, a) ensures next[a] == next0[a] { assert In2(a); }
        TableFrame(recs, next0, cells0, map2.geo, cs2, next, cells);
      }
    }

    /** Storing a new name in its L1 bucket. */
    method StoreIn1(addr: nat)
      requires Base() && L2Ok() && L1Ok() && addr in recs && addr !in mem2 && !In2(addr)
      requires State1(recs[addr].text) != Next && Find(recs, map1.geo, cs1, recs[addr].hashv, recs[addr].text).None?
      requires |cs1[Idx(map1.geo, recs[addr].hashv)]| < MAX_COLLISION && map1.nitems == Total(cs1)
      modifies `next, `cells, `map1, `cs1
      ensures Base() && L2Ok() && L1Ok() && map1.geo == old(map1.geo)
      ensures map1.nitems == old(map1.nitems) + 1 && map1.nitems == Total(cs1)
      ensures var i := Idx(map1.geo, recs[addr].hashv);
              cs1 == old(cs1)[i := [addr] + old(cs1)[i]] && cells == old(cells)[At(map1.geo, i) := Bucket(Head, addr)]
    {
      hide Packed;
      hide ChainOk;
      hide Linked;
      hide Slots;
      hide Idx;
      ghost var next0, cells0, cs0, m := next, cells, cs1, map1.geo;
      ghost var idx := Idx(map1.geo, recs[addr].hashv);
      ghost var c := cs1[idx];
      assert Slot(recs, next, cells, m, idx, c);
      CountUpdate(cs0, idx, [addr] + c);
      PutIn1(addr, c);
      cs1 := cs0[idx := [addr] + c];
      Stored(recs, next0, cells0, m, cs0, addr, next, cells, idx);
      StoredBounded(cs0, MAX_COLLISION, mem2, addr, idx);
      L2Kept(next0, cells0);
    }

    /** The record of a name the tables do not hold is on no L2 chain. */
    lemma {:induction false} NewIsNotIn2(addr: nat)
      requires Ready() && addr in recs && recs[addr].text !in spec
      ensures recs[addr].text !in spec2 && addr !in mem2 && !In2(addr)
    {
      hide Packed;
      assert Get12(recs[addr].text).None?;
      if map2.notnull { NotInUnlessFound(addr); }
      assert Get2(recs[addr].text).None? && (In2(addr) <==> addr in mem2);
    }

    /** A bucket with a list of its own is not a marked one. */
    lemma MarkedKept(cells0: Cells, x: nat, a: nat)
      requires forall h: u32 :: StateAt(cells0, map1.geo, h) == Next ==> map2.notnull
      requires cells == cells0[x := Bucket(Head, a)]
      ensures MarkedOk()
    {
      forall h: u32 | StateAt(cells, map1.geo, h) == Next ensures map2.notnull {
        assert StateAt(cells0, map1.geo, h) == Next;
      }
    }

    /** A new name goes into an L1 bucket that has room. */
    method InsertIn1(addr: nat)
      requires Ready() && addr in recs && recs[addr].text !in spec && State1(recs[addr].text) != Next
      requires |cs1[Idx(map1.geo, recs[addr].hashv)]| < MAX_COLLISION
      modifies `next, `cells, `map1, `cs1, `spec
      ensures Ready() && spec == old(spec)[recs[addr].text := recs[addr].tag] && map1.geo == old(map1.geo)
      ensures var i := Idx(map1.geo, recs[addr].hashv);
              cs1 == old(cs1)[i := [addr] + old(cs1)[i]] && cells == old(cells)[At(map1.geo, i) := Bucket(Head, addr)]
    {
      hide Packed;
      hide Holds;
      hide Placed;
      hide Total;
      hide Heads;
      hide At;
      hide Cap;
      hide View2;
      hide StateAt;
      hide ChainOk;
      hide Lookup;
      hide Idx;
      ghost var cs0, m := cs1, map1.geo;
      NewIsNotIn2(addr);
      assert Get12(recs[addr].text).None?;
      StoreIn1(addr);
      spec := spec[recs[addr].text := recs[addr].tag];
      ViewStored(recs, old(cells), m, cs0, spec2, old(spec), hash, addr);
      MarkedKept(old(cells), At(map1.geo, Idx(m, recs[addr].hashv)), addr);
    }

    /** L1 does not notice what happens to L2. */
    lemma L1Kept(next0: Links, cells0: Cells)
      requires Table(recs, next0, cells0, map1.geo, cs1) && Bounded(cs1, MAX_COLLISION, mem2)
      requires next.Keys == next0.Keys && forall a :: a in next && a !in mem2 ==> next[a] == next0[a]
      requires forall x :: x in cells0 && x < At(map1.geo, Cap(map1.geo)) ==> x in cells && cells[x] == cells0[x]
      ensures Table(recs, next, cells, map1.geo, cs1)
    {
      forall a | a in next && Member(recs, map1.geo, cs1, a) ensures next[a] == next0[a] {
        assert a in cs1[Idx(map1.geo, Hashv(recs, a))];
      }
      TableFrame(recs, next0, cells0, map1.geo, cs1, next, cells);
    }

    /** One record of a full L1 chain moves to L2. */
    method MoveToL2(cur: nat)
      requires Base() && L2Ok() && View2() && L1Ok() && map1.nitems >= 1
      requires cur in recs && recs[cur].text !in spec2 && cs1[Idx(map1.geo, recs[cur].hashv)] == []
      modifies `next, `cells, `map1, `map2, `end, `cs2, `spec2, `mem2
      ensures Base() && L2Ok() && View2() && L1Ok()
      ensures map1 == old(map1).(nitems := old(map1).nitems - 1) && map2.nitems == old(map2.nitems) + 1
      ensures spec2 == old(spec2)[recs[cur].text := recs[cur].tag] && mem2 == old(mem2) + {cur}
      ensures next.Keys == old(next).Keys && forall a :: a in next && a !in mem2 ==> next[a] == old(next)[a]
      ensures forall x :: x in old(cells) && x < At(map1.geo, Cap(map1.geo)) ==> x in cells && cells[x] == old(cells)[x]
    {
      hide Packed;
      map1 := map1.(nitems := map1.nitems - 1);
      ghost var next0, cells0 := next, cells;
      AddToMap2(cur);
      assert Bounded(cs1, MAX_COLLISION, mem2) by {
        forall i | 0 <= i < |cs1| ensures cur !in cs1[i] {
          assert Placed(recs, map1.geo, i, cs1[i]);
        }
      }
      L1Kept(next0, cells0);
    }

    /** The rest of chain `c`, from its `k`-th record on, is intact and not in L2. */
    ghost predicate Waiting(cur: nat, c: seq<nat>, k: nat)
      reads `next, `mem2
    {
      k <= |c| && Linked(next, cur, c[k..]) && forall j :: k <= j < |c| ==> c[j] !in mem2
    }

    lemma {:induction false} WaitingKept(next0: Links, mem0: set<nat>, cur: nat, c: seq<nat>, k: nat)
      requires k < |c| && Linked(next0, cur, c[k..]) && (forall j :: k <= j < |c| ==> c[j] !in mem0) && ChainOk(recs, c)
      requires mem2 == mem0 + {cur} && next.Keys == next0.Keys
      requires forall a :: a in next && a !in mem2 ==> next[a] == next0[a]
      ensures cur in next0 && Waiting(next0[cur], c, k + 1)
    {
      DistinctPairwise(recs, c);
      var d := c[k + 1..];
      assert c[k..][0] == c[k] && c[k..][1..] == d;
      assert forall j :: 0 <= j < |d| ==> d[j] == c[k + 1 + j];
      LinkedIn(next0, next0[cur], d);
      LinkedFrame(next0, next, next0[cur], d);
    }

    /** `k` records of the chain `c` taken from bucket `idx` of L1 have reached L2,
        which held `l2` and `n2` records before. */
    ghost predicate Moving(cur: nat, c: seq<nat>, k: nat, idx: nat, l2: map<bytes, nat>, n2: nat)
      reads `recs, `next, `cells, `map1, `map2, `cs1, `cs2, `end, `spec2, `mem2
    {
      && Base() && L2Ok() && View2() && L1Ok() && Waiting(cur, c, k)
      && ChainOk(recs, c) && Placed(recs, map1.geo, idx, c) && idx < |cs1| && cs1[idx] == []
      && map1.nitems == Total(cs1) + |c| - k && map2.nitems == n2 + k && spec2 == PutN(recs, l2, c, k)
    }

    /** One turn of that loop. */
    method MoveNext(cur: nat, ghost c: seq<nat>, ghost k: nat, ghost idx: nat, ghost l2: map<bytes, nat>, ghost n2: nat)
      returns (nextaddr: nat)
      requires Moving(cur, c, k, idx, l2, n2) && cur != NAMEADDR_END
      requires forall j :: 0 <= j < |c| ==> Text(recs, c[j]) !in l2
      modifies `next, `cells, `map1, `map2, `end, `cs2, `spec2, `mem2
      ensures k < |c| && Moving(nextaddr, c, k + 1, idx, l2, n2)
      ensures map1 == old(map1).(nitems := map1.nitems)
      ensures forall x :: x in old(cells) && x < At(map1.geo, Cap(map1.geo)) ==> x in cells && cells[x] == old(cells)[x]
    {
      hide Packed;
      assert cur == c[k] && cur in c;
      PutNFresh(recs, l2, c, k);
      ghost var next0, mem0 := next, mem2;
      nextaddr := next[cur];
      MoveToL2(cur);
      WaitingKept(next0, mem0, cur, c, k);
    }

    /** The loop of add_to_dnl that moves a whole L1 chain to L2. */
    method MoveChain(head: nat, ghost c: seq<nat>, ghost idx: nat, ghost l2: map<bytes, nat>, ghost n2: nat)
      requires Moving(head, c, 0, idx, l2, n2)
      requires forall j :: 0 <= j < |c| ==> Text(recs, c[j]) !in l2
      modifies `next, `cells, `map1, `map2, `end, `cs2, `spec2, `mem2
      ensures Moving(NAMEADDR_END, c, |c|, idx, l2, n2)
      ensures map1 == old(map1).(nitems := map1.nitems)
      ensures forall x :: x in old(cells) && x < At(map1.geo, Cap(map1.geo)) ==> x in cells && cells[x] == old(cells)[x]
    {
      hide Moving;
      hide At;
      var cur := head;
      ghost var k := 0;
      while cur != NAMEADDR_END
        invariant Moving(cur, c, k, idx, l2, n2) && k <= |c|
        invariant map1 == old(map1).(nitems := map1.nitems)
        invariant forall x :: x in old(cells) && x < At(map1.geo, Cap(map1.geo)) ==>
                    x in cells
                    && cells[x] == old(cells)[x]
        decreases |c| - k
      {
        cur := MoveNext(cur, c, k, idx, l2, n2);
        k := k + 1;
      }
      MovedAll(c, k, idx, l2, n2);
    }

    /** The list ends where the chain does. */
    lemma MovedAll(c: seq<nat>, k: nat, idx: nat, l2: map<bytes, nat>, n2: nat)
      requires Moving(NAMEADDR_END, c, k, idx, l2, n2)
      ensures k == |c|
    {
      hide Base;
      hide L1Ok;
      hide L2Ok;
      hide View2;
      assert Linked(next, NAMEADDR_END, c[k..]);
    }

    /** The names of a chain of L1 are not in L2. */
    lemma {:induction false} ChainNotIn2(idx: nat)
      requires Ready() && idx < |cs1|
      ensures forall j :: 0 <= j < |cs1[idx]| ==> Text(recs, cs1[idx][j]) !in spec2 && cs1[idx][j] !in mem2
      ensures cs1[idx] != [] ==> cells[At(map1.geo, idx)].state == Head
    {
      hide Packed;
      ghost var c := cs1[idx];
      assert Slot(recs, next, cells, map1.geo, idx, c) && Placed(recs, map1.geo, idx, c);
      forall j | 0 <= j < |c| ensures Text(recs, c[j]) !in spec2 && c[j] !in mem2 {
        assert c[j] in c && Get12(Text(recs, c[j])) == Get(spec, Text(recs, c[j]));
        assert State1(Text(recs, c[j])) == Head;
      }
    }

    /** Marks the bucket; its chain is then on no table until it has been moved. */
    method MarkNext(idx: nat) returns (head: nat)
      requires Base() && L2Ok() && View2() && L1Ok() && map1.nitems == Total(cs1)
      requires idx < |cs1| && cs1[idx] != [] && At(map1.geo, idx) in cells && cells[At(map1.geo, idx)].state == Head
      modifies `cells, `map1, `cs1
      ensures Base() && L2Ok() && View2() && L1Ok() && map1 == old(map1).(nlists := map1.nlists)
      ensures map1.nitems == Total(cs1) + |old(cs1)[idx]|
      ensures head == old(cells)[At(map1.geo, idx)].head && cells == old(cells)[At(map1.geo, idx) := Bucket(Next, head)]
      ensures cs1 == old(cs1)[idx := []]
    {
      hide Packed;
      hide ChainOk;
      hide Linked;
      hide Counted;
      hide Idx;
      ghost var cs0, cells0 := cs1, cells;
      assert Slot(recs, next, cells, map1.geo, idx, cs1[idx]);
      CountUpdate(cs0, idx, []);
      map1 := map1.(nlists := map1.nlists - 1);
      var bucket := cells[At(map1.geo, idx)];
      cells := cells[At(map1.geo, idx) := Bucket(Next, bucket.head)];
      cs1 := cs1[idx := []];
      TableEmptied(recs, next, cells0, map1.geo, cs0, idx, cells);
      L2Kept(next, cells0);
      head := bucket.head;
    }

    method BeginPromote(idx: nat) returns (head: nat)
      requires Ready() && idx < |cs1| && cs1[idx] != []
      modifies `cells, `map1, `cs1
      ensures Moving(head, old(cs1[idx]), 0, idx, spec2, map2.nitems) && map1 == old(map1).(nlists := map1.nlists)
      ensures At(map1.geo, idx) in old(cells)
      ensures cells == old(cells)[At(map1.geo, idx) := Bucket(Next, old(cells)[At(map1.geo, idx)].head)]
      ensures cs1 == old(cs1)[idx := []] && old(cells)[At(map1.geo, idx)].state == Head
      ensures forall j :: 0 <= j < |old(cs1[idx])| ==> Text(recs, old(cs1[idx])[j]) !in spec2
    {
      hide Packed;
      ghost var c := cs1[idx];
      assert Slot(recs, next, cells, map1.geo, idx, c) && Placed(recs, map1.geo, idx, c);
      ChainNotIn2(idx);
      head := MarkNext(idx);
      assert c[0..] == c;
    }

    lemma {:induction false} PromotedReady(idx: nat, cells0: Cells, cs0: seq<seq<nat>>, l20: map<bytes, nat>,
                                           next1: Links, cells1: Cells)
      requires idx < |cs0| == Cap(map1.geo) && Moving(NAMEADDR_END, cs0[idx], |cs0[idx]|, idx, l20, |l20|)
      requires ViewOf(recs, cells0, map1.geo, cs0, l20, spec, hash)
      requires At(map1.geo, idx) in cells0 && cells0[At(map1.geo, idx)].state != Next
      requires cells1 == cells0[At(map1.geo, idx) := Bucket(Next, cells0[At(map1.geo, idx)].head)]
      requires cs1 == cs0[idx := []] && Table(recs, next1, cells1, map1.geo, cs1)
      requires forall x :: x in cells1 && x < At(map1.geo, Cap(map1.geo)) ==> x in cells && cells[x] == cells1[x]
      requires forall j :: 0 <= j < |cs0[idx]| ==> Text(recs, cs0[idx][j]) !in l20
      ensures View1() && map2.nitems == |spec2| && map1.nitems == Total(cs1)
    {
      hide Packed;
      ViewPromoted(recs, cells0, map1.geo, cs0, l20, spec, hash, idx);
      ViewFrame(recs, next1, cells1, map1.geo, cs1, spec2, spec, hash, cells);
      PutNSize(recs, l20, cs0[idx], |cs0[idx]|);
    }

    method FinishPromote(head: nat, ghost idx: nat, ghost cells0: Cells, ghost cs0: seq<seq<nat>>)
      requires idx < |cs0| == Cap(map1.geo) && cs0[idx] != [] && Moving(head, cs0[idx], 0, idx, spec2, |spec2|)
      requires ViewOf(recs, cells0, map1.geo, cs0, spec2, spec, hash)
      requires At(map1.geo, idx) in cells0 && cells0[At(map1.geo, idx)].state != Next
      requires cells == cells0[At(map1.geo, idx) := Bucket(Next, cells0[At(map1.geo, idx)].head)]
      requires cs1 == cs0[idx := []]
      requires forall j :: 0 <= j < |cs0[idx]| ==> Text(recs, cs0[idx][j]) !in spec2
      requires map1.nitems + map2.nitems == |spec|
      modifies `next, `cells, `map1, `map2, `end, `cs2, `spec2, `mem2
      ensures Ready() && map1.geo == old(map1.geo) && At(map1.geo, idx) in cells
      ensures cells[At(map1.geo, idx)].state == Next
    {
      hide Linked;
      hide ChainOk;
      hide Counted;
      hide Packed;
      ghost var next1, cells1, l20 := next, cells, spec2;
      MoveChain(head, cs0[idx], idx, l20, |l20|);
      PromotedReady(idx, cells0, cs0, l20, next1, cells1);
    }

    /** A full L1 bucket hands its whole chain over to L2. */
    method Promote(idx: nat)
      requires Ready() && idx < |cs1| && cs1[idx] != []
      modifies `next, `cells, `map1, `map2, `end, `cs1, `cs2, `spec2, `mem2
      ensures Ready() && map1.geo == old(map1.geo) && At(map1.geo, idx) in cells
      ensures cells[At(map1.geo, idx)].state == Next && cs1 == old(cs1)[idx := []]
    {
      hide Packed;
      ghost var cells0, cs0 := cells, cs1;
      var head := BeginPromote(idx);
      FinishPromote(head, idx, cells0, cs0);
    }

    /** L1 after a record has been offered, whose bucket is `i`: a new name joins an unmarked bucket's chain if
        that has fewer than four names; a chain of four leaves, and its bucket is marked. */
    ghost predicate Joined(addr: nat, i: nat, known: bool, marked: bool, cs: seq<seq<nat>>)
      requires i < |cs|
      reads `cells, `map1, `cs1
    {
      && At(map1.geo, i) in cells
      && (cells[At(map1.geo, i)].state == Next <==> marked || (!known && |cs[i]| >= 4))
      && cs1 == if known || marked then cs else if |cs[i]| < 4 then cs[i := [addr] + cs[i]] else cs[i := []]
    }

    /** add_to_dnl: the first insertion of a name wins. */
    method AddToDnl(addr: nat)
      requires Ready() && addr in recs
      modifies `next, `cells, `map1, `map2, `end, `cs1, `cs2, `spec2, `mem2, `spec
      ensures Ready() && map1.geo == old(map1.geo)
      ensures spec == PutNew(old(spec), recs[addr])
      ensures var i := Idx(map1.geo, recs[addr].hashv);
              i < |old(cs1)| && At(map1.geo, i) in old(cells)
              && Joined(addr, i, recs[addr].text in old(spec), old(cells)[At(map1.geo, i)].state == Next, old(cs1))
    {
      hide Ready;
      hide Linked;
      hide ChainOk;
      hide Lookup;
      hide Idx;
      hide At;
      hide Cap;
      L1Says(addr);
      var idx := Idx(map1.geo, recs[addr].hashv);
      var bucket := cells[At(map1.geo, idx)];
      match bucket.state {
        case Free =>
          InsertIn1(addr);
        case Head =>
          var found, n := ExistsIn(bucket.head, addr, cs1[idx]);
          if found { return; }
          if n < MAX_COLLISION {
            InsertIn1(addr);
          } else {
            Promote(idx);
            InsertAfterNext(addr);
          }
        case Next =>
          InsertAfterNext(addr);
      }
    }

    /** What the L1 bucket of a record says about its name. */
    lemma L1Says(addr: nat)
      requires Ready() && addr in recs
      ensures RecsOk() && State1(recs[addr].text) == StateAt(cells, map1.geo, recs[addr].hashv)
      ensures var i, t := Idx(map1.geo, recs[addr].hashv), recs[addr].text;
              && i < |cs1| && At(map1.geo, i) in cells && At(map1.geo, i) < At(map1.geo, Cap(map1.geo))
              && cells[At(map1.geo, i)].state == State1(t) && ChainOk(recs, cs1[i])
              && match State1(t)
                 case Free => cs1[i] == [] && t !in spec
                 case Head =>
                   cs1[i] != [] && Linked(next, cells[At(map1.geo, i)].head, cs1[i])
                   && (Lookup(recs, cs1[i], t).Some? <==> t in spec)
                 case Next => true
    {
      hide Packed;
      hide ChainOk;
      hide Idx;
      hide Total;
      hide Heads;
      hide View2;
      hide L2Ok;
      var idx := Idx(map1.geo, recs[addr].hashv);
      assert Slot(recs, next, cells, map1.geo, idx, cs1[idx]);
      assert Get12(recs[addr].text) == Get(spec, recs[addr].text);
    }

    /** A name whose L1 bucket is marked goes to L2. */
    method InsertAfterNext(addr: nat)
      requires Ready() && addr in recs && State1(recs[addr].text) == Next
      modifies `next, `cells, `map2, `end, `cs2, `spec2, `mem2, `spec
      ensures Ready()
      ensures spec == PutNew(old(spec), recs[addr])
      ensures forall x :: x in old(cells) && x < At(map1.geo, Cap(map1.geo)) ==> x in cells && cells[x] == old(cells)[x]
    {
      hide Packed;
      hide Counted;
      hide L2Ok;
      hide ChainOk;
      hide View2;
      hide Table;
      hide Bounded;
      hide StateAt;
      hide ViewOf;
      ghost var next0, cells0, mem0, l20 := next, cells, mem2, spec2;
      assert Get12(recs[addr].text) == Get(spec, recs[addr].text) by { InMarked(addr); }
      AddToMap2(addr);
      spec := PutNew(spec, recs[addr]);
      InsertedReady(addr, next0, cells0, mem0, l20, old(spec));
    }

    lemma InMarked(addr: nat)
      requires Base() && View1() && addr in recs
      ensures Get12(recs[addr].text) == Get(spec, recs[addr].text)
    {
    }

    /** What L2 has gained leaves L1 in order. */
    lemma {:induction false} InsertedReady(addr: nat, next0: Links, cells0: Cells, mem0: set<nat>, l20: map<bytes, nat>,
                        spec0: map<bytes, nat>)
      requires Base() && addr in recs && StateAt(cells0, map1.geo, recs[addr].hashv) == Next
      requires Table(recs, next0, cells0, map1.geo, cs1) && Bounded(cs1, MAX_COLLISION, mem0)
      requires mem2 <= mem0 + {addr} && spec2 == PutNew(l20, recs[addr]) && spec == PutNew(spec0, recs[addr])
      requires ViewOf(recs, cells0, map1.geo, cs1, l20, spec0, hash)
      requires next.Keys == next0.Keys && forall a :: a in next && a !in mem2 ==> next[a] == next0[a]
      requires forall x :: x in cells0 && x < At(map1.geo, Cap(map1.geo)) ==> x in cells && cells[x] == cells0[x]
      ensures Table(recs, next, cells, map1.geo, cs1) && Bounded(cs1, MAX_COLLISION, mem2) && View1()
    {
      hide Packed;
      hide ViewOf;
      NotOnMarked(addr, next0, cells0);
      assert Bounded(cs1, MAX_COLLISION, mem2);
      L1Kept(next0, cells0);
      ViewInserted(recs, cells0, map1.geo, cs1, l20, spec0, hash, addr);
      ViewFrame(recs, next0, cells0, map1.geo, cs1, spec2, spec, hash, cells);
    }

    /** A record of a marked bucket is on no L1 chain. */
    lemma NotOnMarked(addr: nat, next0: Links, cells0: Cells)
      requires addr in recs && recs[addr].hashv == hash(recs[addr].text)
      requires StateAt(cells0, map1.geo, recs[addr].hashv) == Next && Table(recs, next0, cells0, map1.geo, cs1)
      ensures forall i :: 0 <= i < |cs1| ==> addr !in cs1[i]
    {
      hide ChainOk;
      var idx := Idx(map1.geo, recs[addr].hashv);
      assert Slot(recs, next0, cells0, map1.geo, idx, cs1[idx]);
      forall i | 0 <= i < |cs1| ensures addr !in cs1[i] {
        assert Placed(recs, map1.geo, i, cs1[i]);
      }
    }

    /** exists_in_list */
    method ExistsInList(head: nat, hashv: u32, name: bytes, ghost c: seq<nat>) returns (r: Option<nat>)
      requires RecsOk() && hashv == hash(name) && Linked(next, head, c) && ChainOk(recs, c)
      ensures r == Lookup(recs, c, name)
    {
      var cur := head;
      ghost var n := 0;
      while cur != NAMEADDR_END
        invariant n <= |c| && Linked(next, cur, c[n..]) && Lookup(recs, c, name) == Lookup(recs, c[n..], name)
        decreases |c| - n
      {
        assert cur == c[n] && c[n] in c && c[n..][1..] == c[n + 1..];
        if recs[cur].hashv == hashv && recs[cur].text == name { return Some(recs[cur].tag); }
        cur := next[cur];
        n := n + 1;
      }
      assert c[n..] == [];
      r := None;
    }

    /** exists_in_dnl: the search through both tables finds exactly what was added. */
    method ExistsInDnl(name: bytes) returns (r: Option<nat>)
      requires Ready()
      ensures r == Get(spec, name)
    {
      hide Packed;
      var hashv := hash(name);
      assert Get12(name) == Get(spec, name);
      var idx := Idx(map1.geo, hashv);
      assert Slot(recs, next, cells, map1.geo, idx, cs1[idx]);
      var bucket := cells[At(map1.geo, idx)];
      match bucket.state {
        case Free => r := None;
        case Head => r := ExistsInList(bucket.head, hashv, name, cs1[idx]);
        case Next => r := ExistsInMap2(hashv, name);
      }
    }

    method ExistsInMap2(hashv: u32, name: bytes) returns (r: Option<nat>)
      requires Base() && L2Ok() && map2.notnull && View2() && hashv == hash(name)
      ensures r == Get(spec2, name)
    {
      hide Packed;
      assert Get2(name) == Get(spec2, name);
      var idx := Idx(map2.geo, hashv);
      assert Slot(recs, next, cells, map2.geo, idx, cs2[idx]);
      var bucket := cells[At(map2.geo, idx)];
      if bucket.state == Head { r := ExistsInList(bucket.head, hashv, name, cs2[idx]); } else { r := None; }
    }

    // -------------------------------------------------------------- loading

    /** No table yet, only records. */
    ghost predicate Loading()
      reads this
    {
      && !map1.notnull && !map2.notnull && map1.nitems == map1.nlists == map2.nitems == map2.nlists == 0
      && cs1 == [] && cs2 == [] && spec == spec2 == map[] && mem2 == {}
      && RecsOk() && Packed(recs, end)
    }

    /** dnl_add_name: appends a record right behind the previous allocation. */
    method AddName(name: bytes, tag: nat) returns (nameaddr: nat)
      requires Loading() && end < NAMEADDR_END
      modifies `end, `recs, `next
      ensures Loading() && nameaddr == old(end) && end == nameaddr + NAME_HDRSZ + |name|
      ensures end == nameaddr + 9 + |name| // the fields of struct name before the name
      ensures nameaddr !in old(recs) && recs == old(recs)[nameaddr := Rec(tag, hash(name), name)]
    {
      var hashv := hash(name);
      nameaddr := Alloc(NAME_HDRSZ + |name|, 1);
      recs := recs[nameaddr := Rec(tag, hashv, name)];
      next := next[nameaddr := NAMEADDR_END];
    }

    /** dnl_set_notnull: the L1 buckets follow the last record. */
    method SetNotNull(lcap: nat)
      requires Loading()
      modifies `end, `cells, `map1, `cs1
      ensures Ready() && spec == map[] && map1.geo.lcap == lcap && map1.geo.shift == 0
      ensures old(end) <= map1.geo.buckets && Packed(recs, map1.geo.buckets) && !map2.notnull
    {
      hide View1;
      hide View2;
      hide MarkedOk;
      hide Bounded;
      hide Linked;
      hide RecsOk;
      var n := Pow2(lcap);
      var buckets := AllocBuckets(n);
      map1 := MapHdr(true, Geo(buckets, lcap, 0), map1.nlists, map1.nitems);
      cs1 := [] + Empties(n);
      CountEmpties([], n);
      FreshTable(recs, next, cells, map1.geo, cs1);
      NothingStored();
    }

    /** Free buckets store nothing, and none of them is marked. */
    lemma NothingStored()
      requires |cs1| == Cap(map1.geo) && (forall i :: 0 <= i < |cs1| ==> cs1[i] == [])
      requires forall i :: 0 <= i < Cap(map1.geo) ==> At(map1.geo, i) in cells && cells[At(map1.geo, i)].state == Free
      requires spec == spec2 == map[] && mem2 == {} && !map2.notnull
      ensures View1() && View2() && MarkedOk() && Bounded(cs1, MAX_COLLISION, mem2)
    {
    }

    lemma ItemsCounted()
      requires Ready()
      ensures map1.nitems + map2.nitems == |spec|
    {
    }

    /** add_list: the stride walk over the records of one list adds its names in order. */
    method AddList(addr0: nat, count: nat, ghost ts: seq<bytes>, ghost tag: nat) returns (added: nat)
      requires Ready() && Laid(recs, addr0, ts, tag) && count == |ts|
      modifies `next, `cells, `map1, `map2, `end, `cs1, `cs2, `spec2, `mem2, `spec
      ensures Ready() && spec == PutTexts(old(spec), ts, tag) && added == |spec| - |old(spec)|
    {
      hide Ready;
      ItemsCounted();
      var oldNitems := map1.nitems + map2.nitems;
      var nameaddr: nat := addr0;
      assert ts[0..] == ts;
      for i := 0 to count
        invariant Ready() && Laid(recs, nameaddr, ts[i..], tag)
        invariant PutTexts(spec, ts[i..], tag) == PutTexts(old(spec), ts, tag)
      {
        assert ts[i..][0] == ts[i] && ts[i..][1..] == ts[i + 1..];
        assert PutNew(spec, recs[nameaddr]) == PutNew(spec, Rec(tag, 0, ts[i]));
        AddToDnl(nameaddr);
        nameaddr := nameaddr + RecSize(recs[nameaddr]);
      }
      assert ts[count..] == [];
      PutTextsGrows(old(spec), ts, tag);
      ItemsCounted();
      added := map1.nitems + map2.nitems - oldNitems;
    }
  }
}
