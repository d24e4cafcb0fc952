/** Domains whose replies are not cached: a set of wire names, and a mask of their
    label counts that shortens the lookup. */
module CacheIgnore {
  import opened Bytes
  import opened DnsName
  import opened Labels
  import opened LevelMask

  // ---------------------------------------------------------------- the question's name

  /** Where the label at `p` ends. */
  function Skip(q: bytes, p: nat): nat
    requires p < |q|
  {
    p + 1 + q[p] as int
  }

  /** The number of labels before the null label, which must be reached. */
  function LevelFrom(q: bytes, p: nat): Option<nat>
    decreases if p < |q| then |q| - p else 0
  {
    if p >= |q| then None
    else if q[p] == 0 then Some(0)
    else if q[p] > LABEL_MAXLEN then None
    else
      var rest := LevelFrom(q, Skip(q, p));
      if rest.None? then None else Some(1 + rest.value)
  }

  predicate Recorded(mask: bv8, level: nat)
    requires level >= 1
  {
    level <= MAX_LEVEL && Has(mask, level)
  }

  /** The starts of the suffixes whose label count is recorded, longest first. */
  function Domains(q: bytes, p: nat, level: nat, mask: bv8): (r: seq<nat>)
    ensures forall i :: 0 <= i < |r| ==> r[i] < |q|
    ensures |r| <= if level <= MAX_LEVEL then level else MAX_LEVEL
    decreases level
  {
    if level == 0 || p >= |q| then []
    else (if Recorded(mask, level) then [p] else []) + Domains(q, Skip(q, p), level - 1, mask)
  }

  /** dns_qname_domains: None when the name is malformed. */
  method QnameDomains(q: bytes, mask: bv8) returns (r: Option<seq<nat>>)
    requires mask != 0
    ensures r == if LevelFrom(q, 0).None? then None else Some(Domains(q, 0, LevelFrom(q, 0).value, mask))
    ensures r.Some? ==> |r.value| <= MAX_LEVEL // what the caller's array holds
  {
    var level := CountLabels(q);
    if level.None? { return None; }
    if level.value < MinLevel(mask) {
      NoneRecorded(q, 0, level.value, mask);
      return Some([]);
    }
    var domains := ListDomains(q, level.value, mask);
    return Some(domains);
  }

  method CountLabels(q: bytes) returns (r: Option<nat>)
    ensures r == LevelFrom(q, 0)
  {
    var p: nat, level: nat := 0, 0;
    while p < |q|
      invariant LevelFrom(q, 0) == if LevelFrom(q, p).None? then None else Some(level + LevelFrom(q, p).value)
      decreases |q| - p
    {
      if q[p] == 0 {
        return Some(level);
      } else if q[p] <= LABEL_MAXLEN {
        p, level := Skip(q, p), level + 1;
      } else {
        return None;
      }
    }
    return None;
  }

  method ListDomains(q: bytes, n: nat, mask: bv8) returns (domains: seq<nat>)
    requires LevelFrom(q, 0) == Some(n)
    ensures domains == Domains(q, 0, n, mask)
  {
    hide Recorded;
    hide Domains;
    hide LevelFrom;
    var p: nat, level: nat := 0, n;
    domains := [];
    assert [] + Domains(q, 0, n, mask) == Domains(q, 0, n, mask);
    while level > 0
      invariant LevelFrom(q, p) == Some(level) && Domains(q, 0, n, mask) == domains + Domains(q, p, level, mask)
      decreases level
    {
      LevelGoesOn(q, p);
      DomainsStep(q, p, level, mask, domains);
      if Recorded(mask, level) { domains := domains + [p]; }
      p, level := Skip(q, p), level - 1;
    }
    NoMore(q, p, mask);
    assert domains + [] == domains;
  }

  lemma DomainsStep(q: bytes, p: nat, level: nat, mask: bv8, done: seq<nat>)
    requires level > 0 && p < |q|
    ensures done + Domains(q, p, level, mask)
            == (if Recorded(mask, level) then done + [p] else done) + Domains(q, Skip(q, p), level - 1, mask)
  {
    hide Recorded;
    var rest := Domains(q, Skip(q, p), level - 1, mask);
    assert done + ([p] + rest) == done + [p] + rest && [] + rest == rest;
  }

  lemma NoMore(q: bytes, p: nat, mask: bv8)
    ensures Domains(q, p, 0, mask) == []
  {
  }

  lemma LevelGoesOn(q: bytes, p: nat)
    ensures LevelFrom(q, p).Some? && LevelFrom(q, p).value > 0 ==>
              p < |q| && LevelFrom(q, Skip(q, p)) == Some(LevelFrom(q, p).value - 1)
  {
  }

  /** Below the smallest recorded level nothing is listed. */
  lemma {:induction false} NoneRecorded(q: bytes, p: nat, level: nat, mask: bv8)
    requires mask != 0 && level < MinLevel(mask)
    ensures Domains(q, p, level, mask) == []
    decreases level
  {
    if level == 0 || p >= |q| {
    } else {
      NoneRecorded(q, Skip(q, p), level - 1, mask);
    }
  }

  // ---------------------------------------------------------------- well-formed names

  /** Where the suffix behind `k` labels starts. */
  function At(ls: seq<bytes>, k: nat): nat
    requires GoodLabels(ls) && k <= |ls|
  {
    |WireLabels(ls[..k])|
  }

  /** Behind `k` of its labels, a wire name has the rest of them. */
  lemma SuffixAt(ls: seq<bytes>, k: nat)
    requires GoodLabels(ls) && k <= |ls|
    ensures At(ls, k) < |Wire(ls)| && Wire(ls)[At(ls, k)..|Wire(ls)| - 1] == WireLabels(ls[k..])
  {
    assert ls == ls[..k] + ls[k..];
    WireAppend(ls[..k], ls[k..]);
  }

  lemma {:induction false} LevelOfWire(ls: seq<bytes>, k: nat)
    requires GoodLabels(ls) && k <= |ls|
    ensures LevelFrom(Wire(ls), At(ls, k)) == Some(|ls| - k)
    decreases |ls| - k
  {
    hide Wire;
    hide At;
    if k == |ls| {
      EndOfWire(ls);
    } else {
      StepOver(ls, k);
      LevelOfWire(ls, k + 1);
    }
  }

  lemma EndOfWire(ls: seq<bytes>)
    requires GoodLabels(ls)
    ensures At(ls, |ls|) == |Wire(ls)| - 1 && Wire(ls)[At(ls, |ls|)] == 0
  {
    assert ls[..|ls|] == ls;
  }

  /** A suffix whose label count is recorded is listed. */
  lemma {:induction false} ListedIf(ls: seq<bytes>, k: nat, j: nat, mask: bv8)
    requires GoodLabels(ls) && k <= j < |ls| && Recorded(mask, |ls| - j)
    ensures At(ls, j) in Domains(Wire(ls), At(ls, k), |ls| - k, mask)
    decreases |ls| - k
  {
    hide Wire;
    hide At;
    hide Recorded;
    StepOver(ls, k);
    if k == j {
    } else {
      ListedIf(ls, k + 1, j, mask);
    }
  }

  /** Only suffixes are listed. */
  lemma {:induction false} ListedOnly(ls: seq<bytes>, k: nat, x: nat, mask: bv8) returns (j: nat)
    requires GoodLabels(ls) && k <= |ls| && x in Domains(Wire(ls), At(ls, k), |ls| - k, mask)
    ensures k <= j < |ls| && x == At(ls, j)
    decreases |ls| - k
  {
    hide Wire;
    hide At;
    hide Recorded;
    StepOver(ls, k);
    if x == At(ls, k) {
      j := k;
    } else {
      j := ListedOnly(ls, k + 1, x, mask);
    }
  }

  lemma {:induction false} StepOver(ls: seq<bytes>, k: nat)
    requires GoodLabels(ls) && k < |ls|
    ensures At(ls, k) < |Wire(ls)| && 0 < Wire(ls)[At(ls, k)] <= LABEL_MAXLEN
    ensures Skip(Wire(ls), At(ls, k)) == At(ls, k + 1)
  {
    var l := ls[k];
    assert ls == ls[..k] + ls[k..] && ls[..k + 1] == ls[..k] + [l] && ls[k..] == [l] + ls[k + 1..];
    WireAppend(ls[..k], ls[k..]);
    WireStep(ls[..k], l);
    WireFront(l, ls[k + 1..]);
    assert Wire(ls)[|WireLabels(ls[..k])|] == |l|;
  }

  /** A name counted up to its first zero byte is well formed exactly if its bytes are labels. */
  lemma {:induction false} LevelParse(q: bytes, p: nat)
    requires |q| >= 1 && p <= |q| - 1 && q[|q| - 1] == 0 && 0 !in q[..|q| - 1]
    ensures LevelFrom(q, p).Some? <==> Parse(q[..|q| - 1], p).Some?
    decreases |q| - p
  {
    var n := |q| - 1;
    if p == n {
    } else {
      assert q[p] == q[..n][p] && q[..n][p] in q[..n];
      if q[p] <= LABEL_MAXLEN && Skip(q, p) <= n { LevelParse(q, Skip(q, p)); }
    }
  }

  // ---------------------------------------------------------------- in plain terms

  /** A name of these labels stands in `q` at `p`, with its null label. */
  ghost predicate NameAt(q: bytes, p: nat, ls: seq<bytes>) {
    p <= |q| && Short(ls) && LabelBytes(ls) + [0] <= q[p..]
  }

  lemma {:induction false} LevelBuilt(q: bytes, p: nat, ls: seq<bytes>)
    requires NameAt(q, p, ls)
    ensures LevelFrom(q, p) == Some(|ls|)
    decreases |ls|
  {
    if ls == [] {
      assert q[p..][0] == ([] + [0])[0];
    } else {
      NameStep(q, p, ls);
      LevelBuilt(q, p + 1 + |ls[0]|, ls[1..]);
    }
  }

  lemma {:induction false} NameStep(q: bytes, p: nat, ls: seq<bytes>)
    requires NameAt(q, p, ls) && ls != []
    ensures p < |q| && q[p] == |ls[0]| && NameAt(q, p + 1 + |ls[0]|, ls[1..])
  {
    var n, rest := |ls[0]|, LabelBytes(ls[1..]) + [0];
    assert LabelBytes(ls) + [0] == [n] + ls[0] + rest;
    FrontOf(q[p..], [n] + ls[0], rest);
    assert q[p..][0] == ([n] + ls[0])[0] && q[p..][1 + n..] == q[p + 1 + n..];
  }

  lemma FrontOf(s: bytes, a: bytes, b: bytes)
    requires a + b <= s
    ensures a <= s && b <= s[|a|..]
  {
    assert s[..|a|] == (a + b)[..|a|];
    assert s[|a|..][..|b|] == (a + b)[|a|..];
  }

  lemma {:induction false} LevelRead(q: bytes, p: nat) returns (ls: seq<bytes>)
    requires LevelFrom(q, p).Some?
    ensures NameAt(q, p, ls) && LevelFrom(q, p) == Some(|ls|)
    decreases if p < |q| then |q| - p else 0
  {
    if q[p] == 0 {
      ls := [];
      assert q[p..][..1] == [] + [0];
    } else {
      var n := q[p] as int;
      var rest := LevelRead(q, p + 1 + n);
      var l := q[p + 1..p + 1 + n];
      ls := [l] + rest;
      assert ls[1..] == rest;
      assert LabelBytes(ls) + [0] == [n] + l + (LabelBytes(rest) + [0]);
      assert q[p..] == [n] + l + q[p + 1 + n..];
    }
  }

  /** A name is well formed, with so many labels, exactly if labels and a null byte stand in front. */
  lemma {:induction false} LevelWhen(q: bytes, n: nat)
    ensures LevelFrom(q, 0) == Some(n) <==> exists ls :: |ls| == n && NameAt(q, 0, ls)
  {
    if LevelFrom(q, 0) == Some(n) { var ls := LevelRead(q, 0); }
    if exists ls :: |ls| == n && NameAt(q, 0, ls) {
      var ls :| |ls| == n && NameAt(q, 0, ls);
      LevelBuilt(q, 0, ls);
    }
  }

  /** What can be added: up to 253 bytes, made of at most eight labels of 1 to 63 bytes with dots (46) between them. */
  ghost predicate Addable(ascii: bytes, ls: seq<bytes>) {
    |ascii| <= 253 && 1 <= |ls| <= 8 && Short(ls) && (forall l <- ls :: 46 !in l) && ascii == Join(ls)
  }

  lemma {:induction false} AddWhen(ascii: bytes, ls: seq<bytes>)
    ensures Encodable(ascii) && |Split(ascii)| <= MAX_LEVEL && Split(ascii) == ls <==> Addable(ascii, ls)
  {
    hide Join;
    hide Split;
    ShortGood(ls);
    JoinSplit(ascii);
    SplitDotless(ascii);
    if 1 <= |ls| && forall l <- ls :: 46 !in l { SplitJoin(ls); }
  }

  // ---------------------------------------------------------------- the set

  /** `d` is a suffix of the label list `ls`. */
  predicate IsSuffix(d: seq<bytes>, ls: seq<bytes>) {
    |d| <= |ls| && ls[|ls| - |d|..] == d
  }

  lemma SuffixOf(d: seq<bytes>, ls: seq<bytes>)
    ensures IsSuffix(d, ls) <==> exists k :: 0 <= k <= |ls| && ls[k..] == d
  {
    if IsSuffix(d, ls) { assert ls[|ls| - |d|..] == d; }
  }

  /** One of the sets of labels ends `ls`. */
  ghost predicate EndsInOne(added: set<seq<bytes>>, ls: seq<bytes>) { exists k :: 0 <= k <= |ls| && ls[k..] in added }

  lemma {:induction false} EndsWhen(added: set<seq<bytes>>, ls: seq<bytes>)
    ensures EndsInOne(added, ls) <==> exists d :: d in added && IsSuffix(d, ls)
  {
    if EndsInOne(added, ls) {
      var k :| 0 <= k <= |ls| && ls[k..] in added;
      SuffixOf(ls[k..], ls);
    }
    if exists d :: d in added && IsSuffix(d, ls) {
      var d :| d in added && IsSuffix(d, ls);
      SuffixOf(d, ls);
    }
  }

  class Ignored {
    var domains: set<bytes> // wire names without the null label
    var existLevels: bv8
    ghost var added: set<seq<bytes>> // their label lists

    ghost predicate Valid()
      reads this
    {
      && (forall d <- added ::
            1 <= |d| <= MAX_LEVEL && GoodLabels(d) && WireLabels(d) in domains && Has(existLevels, |d|))
      && (forall w <- domains :: exists d :: d in added && GoodLabels(d) && WireLabels(d) == w)
    }

    constructor ()
      ensures Valid() && added == {} && domains == {}
    {
      domains, existLevels, added := {}, 0, {};
    }

    /** The mask is never zero when it is used. */
    lemma LevelsExist()
      requires Valid() && domains != {}
      ensures existLevels != 0
    {
      var w :| w in domains;
      var d :| d in added && GoodLabels(d) && WireLabels(d) == w;
      HasBounded(existLevels, |d|);
    }

    /** add: refused when the name has no wire form, or more than eight labels. */
    method Add(ascii: bytes) returns (ok: bool)
      requires Valid()
      modifies this
      ensures Valid() && (ok <==> Encodable(ascii) && |Split(ascii)| <= MAX_LEVEL)
      ensures added == if ok then old(added) + {Split(ascii)} else old(added)
      ensures ok <==> exists ls :: Addable(ascii, ls)
      ensures forall ls :: Addable(ascii, ls) ==> added == old(added) + {ls}
    {
      hide Addable;
      hide Encodable;
      forall ls ensures
          Encodable(ascii) && |Split(ascii)| <= MAX_LEVEL && Split(ascii) == ls <==> Addable(ascii, ls) {
        AddWhen(ascii, ls);
      }
      ok := TryAdd(ascii);
      assert ok ==> Addable(ascii, Split(ascii));
    }

    method TryAdd(ascii: bytes) returns (ok: bool)
      requires Valid()
      modifies this
      ensures Valid() && (ok <==> Encodable(ascii) && |Split(ascii)| <= MAX_LEVEL)
      ensures added == if ok then old(added) + {Split(ascii)} else old(added)
    {
      hide Split;
      hide WireLabels;
      var buf := new byte[NAME_WIRE_MAXLEN];
      var n, level := AsciiToWire(ascii, buf);
      if n == 0 || level > MAX_LEVEL { return false; }
      var domain := buf[..n - 1];
      assert domain == buf[..n][..n - 1] == WireLabels(Split(ascii));
      SomeLabel(ascii);
      if domain !in domains {
        Insert(domain, level, Split(ascii));
      } else {
        AlreadyThere(Split(ascii));
        assert added + {Split(ascii)} == added;
      }
      return true;
    }

    method Insert(domain: bytes, level: nat, ghost d: seq<bytes>)
      requires Valid() && 1 <= level == |d| <= MAX_LEVEL && GoodLabels(d) && domain == WireLabels(d)
      modifies this
      ensures Valid() && added == old(added) + {d}
    {
      hide WireLabels;
      hide Has;
      forall k | 1 <= k ensures Has(Record(existLevels, level), k) <==> k == level || Has(existLevels, k) {
        HasRecord(existLevels, level, k);
      }
      domains := domains + {domain};
      existLevels := Record(existLevels, level);
      added := added + {d};
    }

    lemma AlreadyThere(d: seq<bytes>)
      requires Valid() && GoodLabels(d) && WireLabels(d) in domains
      ensures d in added
    {
      hide WireLabels;
      var e :| e in added && GoodLabels(e) && WireLabels(e) == WireLabels(d);
      SameLabels(d, e);
    }

    /** is_ignored: with an empty set nothing is ignored; otherwise a malformed name
        is, and so is a name that ends with one of the domains. */
    method IsIgnored(q: bytes, ghost ls: seq<bytes>) returns (r: bool)
      requires Valid()
      ensures added == {} ==> !r
      ensures added != {} && (forall ks :: !NameAt(q, 0, ks)) ==> r
      ensures Short(ls) && q == LabelBytes(ls) + [0] ==> (r <==> EndsInOne(added, ls))
    {
      hide Valid;
      hide Short;
      hide LabelBytes;
      hide EndsInOne;
      hide NameAt;
      ShortGood(ls);
      if Short(ls) { WireIs(ls); }
      EndsWhen(added, ls);
      if LevelFrom(q, 0).Some? { LevelWhen(q, LevelFrom(q, 0).value); }
      r := LookUp(q, ls);
    }

    method LookUp(q: bytes, ghost ls: seq<bytes>) returns (r: bool)
      requires Valid()
      ensures added == {} ==> !r
      ensures added != {} && LevelFrom(q, 0).None? ==> r
      ensures GoodLabels(ls) && q == Wire(ls) ==> (r <==> exists d :: d in added && IsSuffix(d, ls))
    {
      hide Domains;
      hide WireLabels;
      hide IsSuffix;
      hide Hit;
      if domains == {} {
        assert added == {};
        return false;
      }
      LevelsExist();
      if GoodLabels(ls) { WholeWire(ls); }
      var found := QnameDomains(q, existLevels);
      if found.None? { return true; }
      r := AnyIn(q, found.value);
      if GoodLabels(ls) && q == Wire(ls) { Agrees(ls); }
    }

    /** One of the suffixes of `q` that start at these places is a domain. */
    ghost predicate Hit(q: bytes, found: seq<nat>)
      reads this
    {
      exists i :: 0 <= i < |found| && found[i] < |q| && q[found[i]..|q| - 1] in domains
    }

    /** The lookup loop of is_ignored. */
    method AnyIn(q: bytes, found: seq<nat>) returns (r: bool)
      requires forall i :: 0 <= i < |found| ==> found[i] < |q|
      ensures r <==> Hit(q, found)
    {
      for i := 0 to |found|
        invariant forall j :: 0 <= j < i ==> q[found[j]..|q| - 1] !in domains
      {
        if q[found[i]..|q| - 1] in domains { return true; }
      }
      return false;
    }

    /** Looking up the listed suffixes decides whether some domain is a suffix. */
    lemma Agrees(ls: seq<bytes>)
      requires Valid() && GoodLabels(ls)
      ensures Hit(Wire(ls), Domains(Wire(ls), 0, |ls|, existLevels)) <==> exists d :: d in added && IsSuffix(d, ls)
    {
      hide Valid;
      hide IsSuffix;
      var r := Domains(Wire(ls), 0, |ls|, existLevels);
      if Hit(Wire(ls), r) {
        var i :| 0 <= i < |r| && r[i] < |Wire(ls)| && Wire(ls)[r[i]..|Wire(ls)| - 1] in domains;
        var d := FromHit(ls, r[i]);
      }
      if d :| d in added && IsSuffix(d, ls) {
        ToHit(ls, d);
      }
    }

    lemma FromHit(ls: seq<bytes>, p: nat) returns (d: seq<bytes>)
      requires Valid() && GoodLabels(ls) && p in Domains(Wire(ls), 0, |ls|, existLevels)
      requires p < |Wire(ls)| && Wire(ls)[p..|Wire(ls)| - 1] in domains
      ensures d in added && IsSuffix(d, ls)
    {
      hide Domains;
      hide WireLabels;
      StartsAtZero(ls);
      var j := ListedOnly(ls, 0, p, existLevels);
      SuffixAt(ls, j);
      d := ls[j..];
      AlreadyThere(d);
    }

    lemma {:induction false} ToHit(ls: seq<bytes>, d: seq<bytes>)
      requires Valid() && GoodLabels(ls) && d in added && IsSuffix(d, ls)
      ensures Hit(Wire(ls), Domains(Wire(ls), 0, |ls|, existLevels))
    {
      hide Domains;
      hide WireLabels;
      hide Has;
      StartsAtZero(ls);
      var j := |ls| - |d|;
      ListedIf(ls, 0, j, existLevels);
      SuffixAt(ls, j);
      var r := Domains(Wire(ls), 0, |ls|, existLevels);
      var i :| 0 <= i < |r| && r[i] == At(ls, j);
      assert Wire(ls)[r[i]..|Wire(ls)| - 1] in domains;
    }
  }

  lemma StartsAtZero(ls: seq<bytes>)
    requires GoodLabels(ls)
    ensures At(ls, 0) == 0
  {
  }

  lemma SomeLabel(ascii: bytes)
    ensures |Split(ascii)| >= 1
  {
  }

  lemma SameLabels(d: seq<bytes>, e: seq<bytes>)
    requires GoodLabels(d) && GoodLabels(e) && WireLabels(d) == WireLabels(e)
    ensures d == e
  {
    WireInjective(d, e);
  }

  lemma WholeWire(ls: seq<bytes>)
    requires GoodLabels(ls)
    ensures LevelFrom(Wire(ls), 0) == Some(|ls|)
  {
    LevelOfWire(ls, 0);
    StartsAtZero(ls);
  }
}
