/** Which domain names a list may contain, and which suffixes of a query are
    worth looking up. */
module DomainNames {
  import opened Bytes
  import opened Labels
  import opened LevelMask

  /** What check_name accepts: the last (at most) eight labels are well-formed,
      and the name does not begin or end with a dot or begin with a comment sign. */
  predicate Accepts(name: bytes) {
    && name != [] && name[0] != DOT && name[0] != HASH && name[|name| - 1] != DOT
    && GoodLabels(Split(Tail(name, MAX_LEVEL)))
  }

  /** The first `k` candidates of a list that are stored, cut to eight labels. */
  function AcceptedN(cands: seq<bytes>, k: nat): seq<bytes>
    requires k <= |cands|
  {
    if k == 0 then []
    else if Accepts(cands[k - 1]) then AcceptedN(cands, k - 1) + [Tail(cands[k - 1], MAX_LEVEL)]
    else AcceptedN(cands, k - 1)
  }

  function Accepted(cands: seq<bytes>): seq<bytes> { AcceptedN(cands, |cands|) }

  /** The suffixes of `q` with at most `l` labels at the recorded levels, shortest first. */
  function Listed(q: bytes, mask: bv8, l: nat): seq<bytes> {
    if l == 0 then []
    else if l <= |Split(q)| && Has(mask, l) then Listed(q, mask, l - 1) + [Tail(q, l)]
    else Listed(q, mask, l - 1)
  }

  lemma {:induction false} AcceptedNNames(cands: seq<bytes>, k: nat, s: bytes)
    requires k <= |cands|
    ensures s in AcceptedN(cands, k) <==> exists i :: 0 <= i < k && Accepts(cands[i]) && s == Tail(cands[i], MAX_LEVEL)
    ensures s in AcceptedN(cands, k) ==> 1 <= |Split(s)| <= MAX_LEVEL && GoodLabels(Split(s))
  {
    if k == 0 {
    } else {
      AcceptedNNames(cands, k - 1, s);
      TailIs(cands[k - 1], MAX_LEVEL);
    }
  }

  /** A list stores the last (at most) eight labels of each acceptable candidate and nothing else. */
  lemma AcceptedNames(cands: seq<bytes>, s: bytes)
    ensures s in Accepted(cands) <==> exists c <- cands :: Accepts(c) && s == Tail(c, MAX_LEVEL)
    ensures s in Accepted(cands) ==> s != [] && 1 <= |Split(s)| <= MAX_LEVEL && GoodLabels(Split(s))
  {
    AcceptedNNames(cands, |cands|, s);
    assert s == [] ==> Split(s)[0] == [] && Split(s)[0] in Split(s);
  }

  // ---------------------------------------------------------------- in plain terms

  /** A line `c` of a list stands for the name `s`: it is made of labels with dots
      (46) between them, does not begin with a dot or a comment sign (35), and its
      last eight labels, or all if it has fewer, have 1 to 63 bytes each and make up `s`. */
  ghost predicate StandsFor(c: bytes, s: bytes) {
    c != [] && c[0] != 35 && exists ls :: MadeOf(c, ls) && ls[0] != [] && Kept(ls, if |ls| > 8 then |ls| - 8 else 0, s)
  }

  ghost predicate MadeOf(c: bytes, ls: seq<bytes>) { |ls| >= 1 && (forall l <- ls :: 46 !in l) && c == Join(ls) }

  ghost predicate Kept(ls: seq<bytes>, k: nat, s: bytes) {
    k < |ls| && s == Join(ls[k..]) && forall i :: k <= i < |ls| ==> 1 <= |ls[i]| <= 63
  }

  /** Some line of the list stands for the name. */
  ghost predicate InList(cands: seq<bytes>, s: bytes) { exists c <- cands :: StandsFor(c, s) }

  lemma {:induction false} LastOnesKept(c: bytes, s: bytes)
    ensures var ls := Split(c); var k := if |ls| > 8 then |ls| - 8 else 0;
            GoodLabels(Split(Tail(c, MAX_LEVEL))) && s == Tail(c, MAX_LEVEL) <==> Kept(ls, k, s)
  {
    hide Split;
    hide Join;
    hide Tail;
    var ls := Split(c);
    var k := if |ls| > 8 then |ls| - 8 else 0;
    var ts := Split(Tail(c, MAX_LEVEL));
    TailIs(c, MAX_LEVEL);
    JoinSplit(Tail(c, MAX_LEVEL));
    assert ls[k..] == ts;
    if Kept(ls, k, s) {
      forall i | 0 <= i < |ts| ensures GoodLabel(ts[i]) { assert ts[i] == ls[k + i]; }
    }
    if GoodLabels(ts) {
      forall i | k <= i < |ls| ensures 1 <= |ls[i]| <= 63 { assert ls[i] == ts[i - k] && ts[i - k] in ts; }
    }
  }

  lemma {:induction false} FirstLabel(c: bytes)
    ensures c == [] || c[0] == DOT <==> Split(c)[0] == []
  {
  }

  lemma {:induction false} LastLabel(c: bytes)
    requires c != [] && c[|c| - 1] == DOT
    ensures Split(c)[|Split(c)| - 1] == []
  {
    SplitAtDot(c, |c| - 1);
    assert c[|c|..] == [];
  }

  /** What check_name accepts and keeps, in plain terms. */
  lemma {:induction false} AcceptsWhen(c: bytes, s: bytes)
    ensures Accepts(c) && s == Tail(c, MAX_LEVEL) <==> StandsFor(c, s)
  {
    hide Split;
    hide Join;
    hide Tail;
    var ls := Split(c);
    FirstLabel(c);
    LastOnesKept(c, s);
    if Accepts(c) && s == Tail(c, MAX_LEVEL) {
      JoinSplit(c);
      SplitDotless(c);
      assert MadeOf(c, ls);
    }
    if StandsFor(c, s) {
      var ks :| MadeOf(c, ks) && ks[0] != [] && Kept(ks, if |ks| > 8 then |ks| - 8 else 0, s);
      SplitJoin(ks);
      if c[|c| - 1] == DOT { LastLabel(c); }
    }
  }

  lemma AcceptedWhen(cands: seq<bytes>, s: bytes)
    ensures s in Accepted(cands) <==> InList(cands, s)
  {
    hide Accepts;
    hide Accepted;
    hide Tail;
    hide StandsFor;
    AcceptedNames(cands, s);
    forall c <- cands ensures Accepts(c) && s == Tail(c, MAX_LEVEL) <==> StandsFor(c, s) { AcceptsWhen(c, s); }
  }

  /** Every listed suffix is a whole-label suffix of the query at a recorded level. */
  lemma {:induction false} ListedSound(q: bytes, mask: bv8, l: nat)
    ensures |Listed(q, mask, l)| <= l
    ensures forall s <- Listed(q, mask, l) :: IsDomainSuffix(s, q) && |Split(s)| <= l && Has(mask, |Split(s)|)
  {
    hide Split;
    hide IsDomainSuffix;
    hide Has;
    hide Tail;
    if l == 0 {
    } else {
      ListedSound(q, mask, l - 1);
      TailIs(q, l);
      TailIsSuffix(q, l);
    }
  }

  /** The level mask loses nothing: a whole-label suffix at a recorded level is listed. */
  lemma {:induction false} ListedComplete(q: bytes, mask: bv8, l: nat, s: bytes)
    requires |Split(s)| <= l && IsDomainSuffix(s, q) && Has(mask, |Split(s)|)
    ensures s in Listed(q, mask, l)
  {
    SuffixIsTail(s, q);
    if |Split(s)| == l {
    } else {
      ListedComplete(q, mask, l - 1, s);
    }
  }

  ghost predicate Increasing(r: seq<bytes>) {
    forall i, j :: 0 <= i < j < |r| ==> |r[i]| < |r[j]|
  }

  lemma IncreasingAppend(r: seq<bytes>, t: bytes)
    requires Increasing(r) && forall s <- r :: |s| < |t|
    ensures Increasing(r + [t])
  {
  }

  /** Shortest first. */
  lemma {:induction false} ListedOrdered(q: bytes, mask: bv8, l: nat)
    ensures Increasing(Listed(q, mask, l))
  {
    hide Split;
    hide Tail;
    hide IsDomainSuffix;
    if l == 0 {
    } else {
      ListedOrdered(q, mask, l - 1);
      if l <= |Split(q)| && Has(mask, l) {
        ListedSound(q, mask, l - 1);
        forall s | s in Listed(q, mask, l - 1) ensures |s| < |Tail(q, l)| {
          SuffixIsTail(s, q);
          TailLonger(q, |Split(s)|, l);
        }
        IncreasingAppend(Listed(q, mask, l - 1), Tail(q, l));
      }
    }
  }

  /** Levels that are not recorded, or that the query does not reach, add nothing. */
  lemma {:induction false} ListedRest(q: bytes, mask: bv8, k: nat, l: nat)
    requires k <= l && forall j :: k < j <= |Split(q)| ==> !Has(mask, j)
    ensures Listed(q, mask, l) == Listed(q, mask, k)
  {
    if k == l {
    } else {
      ListedRest(q, mask, k, l - 1);
    }
  }

  /** memrchr(q, '.', n) */
  function LastDot(q: bytes, n: nat): (r: Option<nat>)
    requires n <= |q|
    ensures match r
            case Some(i) => i < n && q[i] == DOT && DOT !in q[i + 1..n]
            case None => DOT !in q[..n]
  {
    if n == 0 then None
    else if q[n - 1] == DOT then Some(n - 1)
    else
      var r := LastDot(q, n - 1);
      assert q[..n] == q[..n - 1] + [q[n - 1]];
      assert r.Some? ==> q[r.value + 1..n] == q[r.value + 1..n - 1] + [q[n - 1]];
      r
  }

  /** A label list keeps a bad last-but-some label when the name is cut to eight labels. */
  lemma {:induction false} TailKeeps(name: bytes, T: seq<bytes>)
    requires EndsWith(Split(name), T) && |T| <= MAX_LEVEL
    ensures Split(name)[|Split(name)| - |T|] in Split(Tail(name, MAX_LEVEL))
  {
    TailIs(name, MAX_LEVEL);
    var S, R := Split(name), Split(Tail(name, MAX_LEVEL));
    if |S| > MAX_LEVEL { assert R[MAX_LEVEL - |T|] == S[|S| - |T|]; }
  }

  lemma {:induction false} LabelTooLong(name: bytes, i: nat)
    requires i <= |name| && |Split(name[i..])| <= MAX_LEVEL && |Split(name[i..])[0]| > LABEL_MAXLEN
    ensures !Accepts(name)
  {
    SplitSuffix(name[..i], name[i..]);
    assert name[..i] + name[i..] == name;
    TailKeeps(name, Split(name[i..]));
  }

  lemma {:induction false} LabelEmpty(name: bytes, i: nat)
    requires 0 < i <= |name| && name[i - 1] == DOT && |Split(name[i..])| <= MAX_LEVEL && Split(name[i..])[0] == []
    ensures !Accepts(name)
  {
    SplitAtDot(name, i - 1);
    SplitSuffix(name[..i], name[i..]);
    assert name[..i] + name[i..] == name;
    TailKeeps(name, Split(name[i..]));
  }

  /** The labels of `name[i..]`: so many, the first of them so long, the others good. */
  ghost predicate Scanned(name: bytes, i: nat, level: nat, labelLen: nat) {
    && i <= |name| && |Split(name[i..])| == level && |Split(name[i..])[0]| == labelLen
    && forall j :: 1 <= j < level ==> GoodLabel(Split(name[i..])[j])
  }

  lemma NoneScanned(name: bytes)
    ensures Scanned(name, |name|, 1, 0)
  {
    assert name[|name|..] == [];
  }

  /** One byte more: a dot ends a label, another byte makes it longer. */
  lemma {:induction false} ScannedOne(name: bytes, i: nat, level: nat, labelLen: nat)
    requires 0 < i <= |name| && level <= MAX_LEVEL && labelLen <= LABEL_MAXLEN && Scanned(name, i, level, labelLen)
    ensures name[i - 1] == DOT && labelLen == 0 ==> !Accepts(name)
    ensures name[i - 1] == DOT && labelLen > 0 ==> Scanned(name, i - 1, level + 1, 0)
    ensures name[i - 1] == DOT && labelLen > 0 && level == MAX_LEVEL ==>
              name[i..] == Tail(name, MAX_LEVEL) && GoodLabels(Split(name[i..])) && |Split(name[i..])| == level
    ensures name[i - 1] != DOT && labelLen == LABEL_MAXLEN ==> !Accepts(name)
    ensures name[i - 1] != DOT ==> Scanned(name, i - 1, level, labelLen + 1)
  {
    hide Tail;
    hide Accepts;
    var R := Split(name[i..]);
    assert name[i - 1..][1..] == name[i..];
    if name[i - 1] == DOT {
      if labelLen == 0 {
        LabelEmpty(name, i);
      } else {
        TailAt(name, i - 1);
        assert Split(name[i - 1..]) == [[]] + R;
      }
    } else {
      assert Split(name[i - 1..]) == R[0 := [name[i - 1]] + R[0]];
      if labelLen == LABEL_MAXLEN { LabelTooLong(name, i - 1); }
    }
  }

  lemma {:induction false} AllScanned(name: bytes, level: nat, labelLen: nat)
    requires Scanned(name, 0, level, labelLen) && level <= MAX_LEVEL && labelLen <= LABEL_MAXLEN
    requires name != [] && name[0] != DOT
    ensures name[0..] == Tail(name, MAX_LEVEL) && GoodLabels(Split(name)) && |Split(name)| == level
  {
    assert name[0..] == name;
    assert |Split(name)[0]| >= 1;
  }

  /** The statics s_level_interest and s_level_max. */
  class Levels {
    var interest: bv8
    var max: nat

    constructor ()
      ensures interest == 0 && max == 0 && Valid()
    {
      interest, max := 0, 0;
      new;
      forall l | l >= 1 ensures !Has(interest, l) { }
    }

    ghost predicate Valid()
      reads this
    {
      max <= MAX_LEVEL && forall l | l >= 1 && Has(interest, l) :: l <= max
    }

    /** check_name: right to left over the name, cut before the ninth label. */
    method CheckName(name: bytes) returns (r: Option<bytes>)
      requires Valid()
      modifies this
      ensures Valid()
      ensures r == if Accepts(name) then Some(Tail(name, MAX_LEVEL)) else None
      ensures r.None? ==> interest == old(interest) && max == old(max)
      ensures r.Some? ==> var level := |Split(r.value)|;
                          interest == Record(old(interest), level) && max == Max(old(max), level)
      ensures r.Some? ==> forall l | l >= 1 :: Has(interest, l) <==> l == |Split(r.value)| || Has(old(interest), l)
    {
      hide Has;
      hide Record;
      hide Valid;
      hide Scanned;
      hide Tail;
      hide Split;
      if |name| < 1 || name[0] == DOT || name[0] == HASH || name[|name| - 1] == DOT { return None; }
      var labelLen: nat, level: nat := 0, 1;
      var i: nat, start: nat := |name|, 0;
      NoneScanned(name);
      while i > 0
        invariant i <= |name| && start == 0 && 1 <= level <= MAX_LEVEL && labelLen <= LABEL_MAXLEN
        invariant Scanned(name, i, level, labelLen) && unchanged(this)
        decreases i
      {
        ScannedOne(name, i, level, labelLen);
        if name[i - 1] == DOT {
          if labelLen < 1 { return None; }
          labelLen := 0;
          level := level + 1;
          if level > MAX_LEVEL {
            level := level - 1;
            start := i;
            break;
          }
        } else {
          labelLen := labelLen + 1;
          if labelLen > LABEL_MAXLEN { return None; }
        }
        i := i - 1;
      }
      if start == 0 { AllScanned(name, level, labelLen); }
      RecordLevel(level);
      return Some(name[start..]);
    }

    /** One more level of interest. */
    method RecordLevel(level: nat)
      requires Valid() && 1 <= level <= MAX_LEVEL
      modifies this
      ensures Valid() && interest == Record(old(interest), level) && max == Max(old(max), level)
      ensures forall l | l >= 1 :: Has(interest, l) <==> l == level || Has(old(interest), l)
    {
      forall l ensures l >= 1 ==> (Has(Record(interest, level), l) <==> level == l || Has(interest, l)) {
        if l >= 1 { HasRecord(interest, level, l); }
      }
      interest := Record(interest, level);
      if level > max { max := level; }
    }

    /** get_suffix: the suffixes of a query at the recorded levels. */
    method GetSuffix(name: bytes) returns (suffixes: seq<bytes>)
      requires Valid()
      ensures suffixes == Listed(name, interest, MAX_LEVEL)
    {
      hide Split;
      hide Has;
      hide LastDot;
      suffixes := [];
      var level: nat, dot: nat := 1, |name|;
      while level <= max && LastDot(name, dot).Some?
        invariant 1 <= level <= max + 1 && dot <= |name|
        invariant suffixes == Listed(name, interest, level - 1)
        invariant if level == 1 then dot == |name|
                  else dot < |name| && name[dot] == DOT && |Split(name[dot + 1..])| == level - 1
        decreases max + 1 - level
      {
        var d := LastDot(name, dot).value;
        NextSuffix(name, dot, d, level);
        if Has(interest, level) { suffixes := suffixes + [name[d + 1..]]; }
        dot := d;
        level := level + 1;
      }
      if level <= max { LastSuffix(name, dot, level); }
      if Has(interest, level) { suffixes := suffixes + [name]; }
      ListedRest(name, interest, if level <= max then level else level - 1, MAX_LEVEL);
    }

    static lemma NextSuffix(name: bytes, dot: nat, d: nat, level: nat)
      requires d < dot <= |name| && name[d] == DOT && DOT !in name[d + 1..dot] && level >= 1
      requires if level == 1 then dot == |name|
               else dot < |name| && name[dot] == DOT && |Split(name[dot + 1..])| == level - 1
      ensures |Split(name[d + 1..])| == level && Tail(name, level) == name[d + 1..] && |Split(name)| > level
    {
      if level == 1 {
        assert name[d + 1..dot] == name[d + 1..];
        SplitNoDots(name[d + 1..]);
      } else {
        assert name[d + 1..] == name[d + 1..dot] + [DOT] + name[dot + 1..];
        SplitCons(name[d + 1..dot], name[dot + 1..]);
      }
      TailAt(name, d);
      SplitAtDot(name, d);
    }

    static lemma LastSuffix(name: bytes, dot: nat, level: nat)
      requires dot <= |name| && level >= 1 && DOT !in name[..dot]
      requires if level == 1 then dot == |name|
               else dot < |name| && name[dot] == DOT && |Split(name[dot + 1..])| == level - 1
      ensures |Split(name)| == level
    {
      if level == 1 {
        assert name[..dot] == name;
        SplitNoDots(name);
      } else {
        assert name == name[..dot] + [DOT] + name[dot + 1..];
        SplitCons(name[..dot], name[dot + 1..]);
      }
    }
  }
}
