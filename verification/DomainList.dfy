/** Loading the domain lists in order of priority and looking up the tag of a query. */
module DomainList {
  import opened Bytes
  import opened Labels
  import opened LevelMask
  import opened DomainNames
  import opened DnlTable
  import opened DnlStore

  const TAG_CHN := 0
  const TAG_GFW := 1
  const TAG_MAX := 7

  /** The tags, highest priority first: those of the user, 7 to 2, then the two built-in ones. */
  function Order(gfwlistFirst: bool): seq<nat> {
    [7, 6, 5, 4, 3, 2] + (if gfwlistFirst then [TAG_GFW, TAG_CHN] else [TAG_CHN, TAG_GFW])
  }

  /** The tag of a name: that of the first list, in the given order, that contains it. */
  function FirstTag(lists: seq<seq<bytes>>, order: seq<nat>, s: bytes): Option<nat> {
    if order == [] then None
    else if order[0] < |lists| && s in Accepted(lists[order[0]]) then Some(order[0])
    else FirstTag(lists, order[1..], s)
  }

  /** Which of two tags wins when both lists hold a name: the user's lists, 2 to 7, win over the
      built-in ones and the higher over the lower; of chnlist (0) and gfwlist (1) the option says which. */
  predicate Outranks(r: nat, t: nat, gfwlistFirst: bool) {
    if r >= 2 || t >= 2 then r > t else if gfwlistFirst then r == 1 && t == 0 else r == 0 && t == 1
  }

  /** List `r` holds the name, and outranks every other list that does. */
  ghost predicate Wins(lists: seq<seq<bytes>>, gfwlistFirst: bool, s: bytes, r: nat) {
    && r < |lists| && InList(lists[r], s)
    && forall t :: 0 <= t < |lists| && t != r && InList(lists[t], s) ==> Outranks(r, t, gfwlistFirst)
  }

  ghost predicate InSome(lists: seq<seq<bytes>>, s: bytes) {
    exists t :: 0 <= t < |lists| && InList(lists[t], s)
  }

  /** The answer to a query: of the names that end it, label by label, the longest
      that any list holds gives the tag of its winning list; without one it is the default. */
  ghost predicate IsAnswer(lists: seq<seq<bytes>>, gfwlistFirst: bool, q: bytes, d: nat, r: nat) {
    if exists s :: Ends(s, q) && InSome(lists, s) then
      exists s :: && Ends(s, q) && Wins(lists, gfwlistFirst, s, r)
                  && forall s' :: Ends(s', q) && InSome(lists, s') ==> |s'| <= |s|
    else r == d
  }

  lemma {:induction false} FirstTagAt(lists: seq<seq<bytes>>, order: seq<nat>, s: bytes) returns (i: nat)
    requires FirstTag(lists, order, s).Some?
    ensures i < |order| && FirstTag(lists, order, s) == Some(order[i])
    ensures forall j :: 0 <= j < i && order[j] < |lists| ==> s !in Accepted(lists[order[j]])
  {
    if order[0] < |lists| && s in Accepted(lists[order[0]]) {
      i := 0;
    } else {
      i := FirstTagAt(lists, order[1..], s);
      i := i + 1;
    }
  }

  lemma OrderRanks(gfwlistFirst: bool)
    ensures var o := Order(gfwlistFirst);
            && |o| == 8 && (forall t :: 0 <= t < 8 ==> t in o)
            && forall i, j :: 0 <= i < j < 8 ==> Outranks(o[i], o[j], gfwlistFirst)
  {
    var o := Order(gfwlistFirst);
    assert o == [7, 6, 5, 4, 3, 2, o[6], o[7]];
    forall t | 0 <= t < 8 ensures t in o {
      if t >= 2 { assert o[7 - t] == t; } else { assert o[6] == t || o[7] == t; }
    }
  }

  /** The list found first is the one that outranks the others, and one is found if any holds the name. */
  lemma {:induction false} OrderDecides(lists: seq<seq<bytes>>, gfwlistFirst: bool, s: bytes)
    requires |lists| == TAG_MAX + 1
    ensures var f := FirstTag(lists, Order(gfwlistFirst), s);
            (f.Some? <==> InSome(lists, s)) && (f.Some? ==> Wins(lists, gfwlistFirst, s, f.value))
  {
    hide Order;
    hide FirstTag;
    hide Outranks;
    hide Accepted;
    hide InList;
    var o := Order(gfwlistFirst);
    FirstTagIn(lists, o, s);
    OrderRanks(gfwlistFirst);
    forall t | 0 <= t < |lists| ensures s in Accepted(lists[t]) <==> InList(lists[t], s) {
      AcceptedWhen(lists[t], s);
    }
    if FirstTag(lists, o, s).Some? {
      var i := FirstTagAt(lists, o, s);
      forall t | 0 <= t < |lists| && t != o[i] && InList(lists[t], s) ensures Outranks(o[i], t, gfwlistFirst) {
        assert t in o;
        var j :| 0 <= j < |o| && o[j] == t;
      }
    }
  }

  /** The map after the lists of the given tags have been added in that order. */
  function PutLists(m: map<bytes, nat>, lists: seq<seq<bytes>>, order: seq<nat>): map<bytes, nat>
    decreases |order|
  {
    if order == [] then m
    else PutLists(if order[0] < |lists| then PutTexts(m, Accepted(lists[order[0]]), order[0]) else m, lists, order[1..])
  }

  /** First come, first served: the final tag of a name is that of the first list with it. */
  lemma {:induction false} PutListsGet(m: map<bytes, nat>, lists: seq<seq<bytes>>, order: seq<nat>, t: bytes)
    ensures Get(PutLists(m, lists, order), t) == if t in m then Some(m[t]) else FirstTag(lists, order, t)
    decreases |order|
  {
    if order == [] {
    } else {
      var m' := if order[0] < |lists| then PutTexts(m, Accepted(lists[order[0]]), order[0]) else m;
      if order[0] < |lists| { PutTextsGet(m, Accepted(lists[order[0]]), order[0], t); }
      PutListsGet(m', lists, order[1..], t);
    }
  }

  /** calc_lcap: the smallest power of two that is at least `n`. */
  method CalcLcap(n: nat) returns (lcap: nat)
    ensures Pow2(lcap) >= n && (lcap > 0 ==> Pow2(lcap - 1) < n)
  {
    var cap := 1;
    lcap := 0;
    while cap < n
      invariant cap == Pow2(lcap) && (lcap > 0 ==> Pow2(lcap - 1) < n)
      decreases n - cap
    {
      cap := cap * 2;
      lcap := lcap + 1;
    }
  }

  /** The answer of a table that holds the map `spec`. */
  ghost predicate AnswerIn(spec: map<bytes, nat>, q: bytes, d: nat, r: nat) {
    || (exists s :: s in spec && IsDomainSuffix(s, q) && r == spec[s]
                    && forall s' :: s' in spec && IsDomainSuffix(s', q) ==> |s'| <= |s|)
    || (r == d && forall s <- spec :: !IsDomainSuffix(s, q))
  }

  /** What the tables answer is the answer over the lists they were loaded from. */
  lemma {:induction false} AnswerInIsAnswer(lists: seq<seq<bytes>>, gfwlistFirst: bool, q: bytes, d: nat, r: nat)
    requires |lists| == TAG_MAX + 1 && AnswerIn(PutLists(map[], lists, Order(gfwlistFirst)), q, d, r)
    ensures IsAnswer(lists, gfwlistFirst, q, d, r)
  {
    hide InSome;
    hide Wins;
    hide IsDomainSuffix;
    hide Ends;
    hide PutLists;
    var spec := PutLists(map[], lists, Order(gfwlistFirst));
    forall s
      ensures IsDomainSuffix(s, q) <==> Ends(s, q)
      ensures (s in spec <==> InSome(lists, s)) && (s in spec ==> Wins(lists, gfwlistFirst, s, spec[s]))
    {
      SuffixWhen(s, q);
      SpecDecides(lists, gfwlistFirst, s);
    }
  }

  lemma SpecDecides(lists: seq<seq<bytes>>, gfwlistFirst: bool, s: bytes)
    requires |lists| == TAG_MAX + 1
    ensures var spec := PutLists(map[], lists, Order(gfwlistFirst));
            (s in spec <==> InSome(lists, s)) && (s in spec ==> Wins(lists, gfwlistFirst, s, spec[s]))
  {
    hide Wins;
    hide InSome;
    hide PutLists;
    hide FirstTag;
    hide Order;
    PutListsGet(map[], lists, Order(gfwlistFirst), s);
    OrderDecides(lists, gfwlistFirst, s);
  }

  ghost predicate NoNames(lists: seq<seq<bytes>>) {
    forall t :: 0 <= t < |lists| ==> Accepted(lists[t]) == []
  }

  /** The last listed suffix that is stored is the longest stored suffix. */
  lemma {:induction false} LastIsLongest(spec: map<bytes, nat>, q: bytes, mask: bv8, d: nat, n: nat)
    requires forall s <- spec :: Has(mask, |Split(s)|)
    requires n <= |Listed(q, mask, MAX_LEVEL)|
    requires forall i :: n <= i < |Listed(q, mask, MAX_LEVEL)| ==> Listed(q, mask, MAX_LEVEL)[i] !in spec
    requires n == 0 || Listed(q, mask, MAX_LEVEL)[n - 1] in spec
    ensures AnswerIn(spec, q, d, if n == 0 then d else spec[Listed(q, mask, MAX_LEVEL)[n - 1]])
  {
    var r := Listed(q, mask, MAX_LEVEL);
    ListedSound(q, mask, MAX_LEVEL);
    ListedOrdered(q, mask, MAX_LEVEL);
    forall s | s in spec && IsDomainSuffix(s, q) ensures n > 0 && |s| <= |r[n - 1]| {
      HasBounded(mask, |Split(s)|);
      ListedComplete(q, mask, MAX_LEVEL, s);
      var i :| 0 <= i < |r| && r[i] == s;
    }
  }

  /** The arena bytes that the records of the first `k` lists take. */
  function TotalSize(lists: seq<seq<bytes>>, k: nat): nat
    requires k <= |lists|
  {
    if k == 0 then 0 else TotalSize(lists, k - 1) + SizeOf(Accepted(lists[k - 1]))
  }

  lemma {:induction false} TotalSizeGrows(lists: seq<seq<bytes>>, k: nat, l: nat)
    requires k <= l <= |lists|
    ensures TotalSize(lists, k) <= TotalSize(lists, l)
  {
    if k == l {
    } else {
      TotalSizeGrows(lists, k, l - 1);
    }
  }

  /** Where the records of the first lists lie, and how many they are. */
  ghost predicate LaidLists(recs: Recs, lists: seq<seq<bytes>>, addr0s: seq<nat>, counts: seq<nat>) {
    && |addr0s| == |counts| <= |lists|
    && forall t :: 0 <= t < |addr0s| ==>
          Laid(recs, addr0s[t], Accepted(lists[t]), t)
          && counts[t] == |Accepted(lists[t])|
  }

  lemma {:induction false} LaidListsAdd(recs: Recs, recs': Recs, lists: seq<seq<bytes>>, addr0s: seq<nat>,
                                        counts: seq<nat>, addr0: nat,
                     count: nat)
    requires LaidLists(recs, lists, addr0s, counts) && |addr0s| < |lists|
    requires forall a <- recs :: a in recs' && recs'[a] == recs[a]
    requires Laid(recs', addr0, Accepted(lists[|addr0s|]), |addr0s|) && count == |Accepted(lists[|addr0s|])|
    ensures LaidLists(recs', lists, addr0s + [addr0], counts + [count])
  {
    forall t | 0 <= t < |addr0s| ensures Laid(recs', addr0s[t], Accepted(lists[t]), t) {
      LaidGrow(recs, recs', addr0s[t], Accepted(lists[t]), t);
    }
  }

  lemma {:induction false} FirstTagIn(lists: seq<seq<bytes>>, order: seq<nat>, s: bytes)
    ensures match FirstTag(lists, order, s)
            case Some(t) => t in order && t < |lists| && s in Accepted(lists[t])
            case None => forall t <- order :: t < |lists| ==> s !in Accepted(lists[t])
  {
    if order == [] {
    } else {
      FirstTagIn(lists, order[1..], s);
      assert order == [order[0]] + order[1..];
    }
  }

  lemma {:induction false} AcceptedSize(cands: seq<bytes>, k: nat, l: nat)
    requires k <= l <= |cands|
    ensures SizeOf(AcceptedN(cands, k)) <= SizeOf(AcceptedN(cands, l))
  {
    if k == l {
    } else {
      AcceptedSize(cands, k, l - 1);
      SizeOfJoin(AcceptedN(cands, l - 1), [Tail(cands[l - 1], MAX_LEVEL)]);
    }
  }

  class Dnl {
    const store: Store
    const levels: Levels

    constructor (hash: bytes -> u32)
      ensures fresh(store) && fresh(levels) && store.hash == hash && store.Loading() && store.end == 0 && levels.Valid()
    {
      store := new Store(hash);
      levels := new Levels();
    }

    /** Every stored name has its level recorded. */
    ghost predicate Covered(ts: seq<bytes>)
      reads levels
    {
      forall s <- ts :: Has(levels.interest, |Split(s)|)
    }

    ghost predicate Ready()
      reads this, store, levels
    {
      store.Ready() && levels.Valid() && forall s <- store.spec :: Has(levels.interest, |Split(s)|)
    }

    /** One accepted name becomes the next record of its list. */
    method LoadName(name: bytes, tag: nat, ghost addr0: nat, ghost ts: seq<bytes>) returns (nameaddr: nat)
      requires store.Loading() && store.end < NAMEADDR_END
      requires Laid(store.recs, addr0, ts, tag) && (ts != [] ==> store.end == addr0 + SizeOf(ts))
      modifies store`end, store`recs, store`next
      ensures store.Loading() && nameaddr == old(store.end) && store.end == nameaddr + SizeOf([name])
      ensures Laid(store.recs, if ts == [] then nameaddr else addr0, ts + [name], tag)
      ensures forall a <- old(store.recs) :: a in store.recs && store.recs[a] == old(store.recs)[a]
    {
      ghost var recs0 := store.recs;
      nameaddr := store.AddName(name, tag);
      if ts != [] { LaidGrow(recs0, store.recs, addr0, ts, tag); }
      LaidAppend(store.recs, if ts == [] then nameaddr else addr0, ts, name, tag);
      assert [name][1..] == [];
    }

    /** load_list, from a sequence of candidate names. */
    method LoadList(tag: nat, cands: seq<bytes>) returns (addr0: nat, count: nat)
      requires store.Loading() && levels.Valid() && store.end + SizeOf(Accepted(cands)) <= NAMEADDR_END
      modifies store`end, store`recs, store`next, levels
      ensures store.Loading() && levels.Valid() && store.end == old(store.end) + SizeOf(Accepted(cands))
      ensures Laid(store.recs, addr0, Accepted(cands), tag) && count == |Accepted(cands)|
      ensures forall a <- old(store.recs) :: a in store.recs && store.recs[a] == old(store.recs)[a]
      ensures Covered(Accepted(cands)) && forall l | l >= 1 && Has(old(levels.interest), l) :: Has(levels.interest, l)
    {
      hide Levels.Valid;
      hide Store.RecsOk;
      hide Split;
      addr0, count := 0, 0;
      ghost var ts: seq<bytes> := [];
      for i := 0 to |cands|
        invariant store.Loading() && levels.Valid() && count == |ts| && ts == AcceptedN(cands, i)
        invariant store.end == old(store.end) + SizeOf(ts) && (ts != [] ==> addr0 == old(store.end))
        invariant Laid(store.recs, addr0, ts, tag)
        invariant forall a <- old(store.recs) :: a in store.recs && store.recs[a] == old(store.recs)[a]
        invariant Covered(ts) && forall l | l >= 1 && Has(old(levels.interest), l) :: Has(levels.interest, l)
      {
        var name := levels.CheckName(cands[i]);
        if name.Some? {
          SizeOfJoin(ts, [name.value]);
          AcceptedSize(cands, i + 1, |cands|);
          var nameaddr := LoadName(name.value, tag, addr0, ts);
          if count == 0 { addr0 := nameaddr; }
          count := count + 1;
          ts := ts + [name.value];
        }
      }
    }

    /** The first half of dnl_init: the records of all lists, tag by tag. */
    method LoadAll(lists: seq<seq<bytes>>) returns (addr0s: seq<nat>, counts: seq<nat>, total: nat)
      requires store.Loading() && store.end == 0 && levels.Valid()
      requires |lists| == TAG_MAX + 1 && TotalSize(lists, |lists|) <= NAMEADDR_END
      modifies store`end, store`recs, store`next, levels
      ensures store.Loading() && levels.Valid() && |addr0s| == |lists|
      ensures LaidLists(store.recs, lists, addr0s, counts)
      ensures forall t :: 0 <= t < |lists| ==> Covered(Accepted(lists[t]))
      ensures total == 0 <==> NoNames(lists)
    {
      hide Store.Loading;
      hide SizeOf;
      hide Laid;
      hide Accepted;
      hide AcceptedN;
      hide Levels.Valid;
      addr0s, counts, total := [], [], 0;
      for tag := 0 to |lists|
        invariant store.Loading() && levels.Valid() && |addr0s| == tag && store.end == TotalSize(lists, tag)
        invariant LaidLists(store.recs, lists, addr0s, counts)
        invariant forall t :: 0 <= t < tag ==> Covered(Accepted(lists[t]))
        invariant total == 0 <==> forall t :: 0 <= t < tag ==> Accepted(lists[t]) == []
      {
        TotalSizeGrows(lists, tag + 1, |lists|);
        ghost var recs0 := store.recs;
        var addr0, count := LoadList(tag, lists[tag]);
        LaidListsAdd(recs0, store.recs, lists, addr0s, counts, addr0, count);
        addr0s := addr0s + [addr0];
        counts := counts + [count];
        total := total + count;
      }
    }

    /** The second half: the lists are added in order of priority. */
    method AddAll(lists: seq<seq<bytes>>, order: seq<nat>, addr0s: seq<nat>, counts: seq<nat>) returns (totalAdded: nat)
      requires store.Ready() && store.spec == map[] && |addr0s| == |lists|
      requires LaidLists(store.recs, lists, addr0s, counts) && forall t <- order :: t < |lists|
      modifies store`next, store`cells, store`map1, store`map2, store`end, store`cs1, store`cs2, store`spec2,
               store`mem2, store`spec
      ensures store.Ready() && store.spec == PutLists(map[], lists, order) && totalAdded == |store.spec|
    {
      totalAdded := 0;
      assert order[0..] == order;
      for i := 0 to |order|
        invariant store.Ready() && totalAdded == |store.spec|
        invariant PutLists(store.spec, lists, order[i..]) == PutLists(map[], lists, order)
      {
        var tag := order[i];
        assert tag in order;
        assert order[i..][0] == tag && order[i..][1..] == order[i + 1..];
        if counts[tag] > 0 {
          var added := store.AddList(addr0s[tag], counts[tag], Accepted(lists[tag]), tag);
          totalAdded := totalAdded + added;
        }
      }
      assert order[|order|..] == [];
    }

    /** dnl_init, from the candidate names of each tag. */
    method Init(lists: seq<seq<bytes>>, gfwlistFirst: bool)
      requires store.Loading() && store.end == 0 && levels.Valid()
      requires |lists| == TAG_MAX + 1 && TotalSize(lists, |lists|) <= NAMEADDR_END
      modifies store, levels
      ensures if NoNames(lists) then !store.map1.notnull
              else Ready() && store.spec == PutLists(map[], lists, Order(gfwlistFirst)) && store.map1.notnull
    {
      hide Store.RecsOk;
      hide Store.View2;
      hide Store.L1Ok;
      hide Laid;
      hide TotalSize;
      hide Accepted;
      var addr0s, counts, total := LoadAll(lists);
      if total == 0 { return; }
      var lcap := CalcLcap(total);
      store.SetNotNull(lcap);
      var totalAdded := AddAll(lists, Order(gfwlistFirst), addr0s, counts);
      assert store.map1.nitems + store.map2.nitems == totalAdded;
      forall s | s in store.spec ensures Has(levels.interest, |Split(s)|) {
        PutListsGet(map[], lists, Order(gfwlistFirst), s);
        FirstTagIn(lists, Order(gfwlistFirst), s);
      }
    }

    /** dnl_get_tag: the tag of the longest stored suffix of the query. */
    method GetTag(q: bytes, defaultTag: nat) returns (tag: nat)
      requires Ready() && 0 < |q| < 256
      ensures AnswerIn(store.spec, q, defaultTag, tag)
    {
      hide Split;
      hide Store.View1;
      hide Store.View2;
      hide Store.L1Ok;
      var suffixes := levels.GetSuffix(q);
      ghost var spec := store.spec;
      var n := |suffixes|;
      while n > 0
        invariant 0 <= n <= |suffixes|
        invariant forall i :: n <= i < |suffixes| ==> suffixes[i] !in spec
      {
        n := n - 1;
        var r := store.ExistsInDnl(suffixes[n]);
        if r.Some? {
          LastIsLongest(spec, q, levels.interest, defaultTag, n + 1);
          return r.value;
        }
      }
      LastIsLongest(spec, q, levels.interest, defaultTag, 0);
      tag := defaultTag;
    }
  }

  /** From the lists to the answer: building the tables and asking them gives
      the tag of the longest listed suffix, whatever the hash function. */
  method Classify(hash: bytes -> u32, lists: seq<seq<bytes>>, gfwlistFirst: bool, q: bytes, defaultTag: nat)
    returns (tag: nat)
    requires |lists| == TAG_MAX + 1 && TotalSize(lists, |lists|) <= NAMEADDR_END && |q| < 256
    ensures IsAnswer(lists, gfwlistFirst, q, defaultTag, tag)
  {
    var dnl := new Dnl(hash);
    dnl.Init(lists, gfwlistFirst);
    if |q| > 0 && dnl.store.map1.notnull {
      tag := dnl.GetTag(q, defaultTag);
      AnswerInIsAnswer(lists, gfwlistFirst, q, defaultTag, tag);
    } else {
      tag := defaultTag;
      NoAnswer(lists, gfwlistFirst, q, defaultTag);
    }
  }

  lemma NoAnswer(lists: seq<seq<bytes>>, gfwlistFirst: bool, q: bytes, d: nat)
    requires |q| == 0 || NoNames(lists)
    ensures IsAnswer(lists, gfwlistFirst, q, d, d)
  {
    hide InList;
    forall s, t | Ends(s, q) && 0 <= t < |lists| ensures !InList(lists[t], s) {
      AcceptedWhen(lists[t], s);
      AcceptedNames(lists[t], s);
    }
  }
}
