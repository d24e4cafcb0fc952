/** Domain names in text form: labels separated by dots, and what it means for
    one name to be a whole-label suffix of another. */
module Labels {
  import opened Bytes

  const DOT: byte := 46 // '.'
  const HASH: byte := 35 // '#'
  const LABEL_MAXLEN := 63 // DNS_NAME_LABEL_MAXLEN
  const NAME_MAXLEN := 253 // DNS_NAME_MAXLEN

  /** The labels of a text name, left to right; "" has the one empty label. */
  function Split(s: bytes): (r: seq<bytes>)
    ensures |r| >= 1
  {
    if s == [] then [[]]
    else
      var r := Split(s[1..]);
      if s[0] == DOT then [[]] + r else r[0 := [s[0]] + r[0]]
  }

  function Join(ls: seq<bytes>): bytes
    requires |ls| >= 1
  {
    if |ls| == 1 then ls[0] else ls[0] + [DOT] + Join(ls[1..])
  }

  /** A label as section 2.3.4 of RFC 1035 bounds it. */
  predicate GoodLabel(l: bytes) { 1 <= |l| <= LABEL_MAXLEN }

  predicate GoodLabels(ls: seq<bytes>) { forall l <- ls :: GoodLabel(l) }

  /** `s` is `q` itself or what follows one of the dots of `q`. */
  predicate IsDomainSuffix(s: bytes, q: bytes) {
    s == q || (|s| < |q| && q[|q| - |s| - 1] == DOT && q[|q| - |s|..] == s)
  }

  /** `s` is the name `q` or what stands behind one of its dots (46). */
  ghost predicate Ends(s: bytes, q: bytes) { s == q || exists p: bytes :: q == p + [46] + s }

  lemma {:induction false} SuffixWhen(s: bytes, q: bytes)
    ensures IsDomainSuffix(s, q) <==> Ends(s, q)
  {
    if IsDomainSuffix(s, q) && s != q {
      assert q == q[..|q| - |s| - 1] + [46] + s;
    }
  }

  lemma {:induction false} JoinSplit(s: bytes)
    ensures Join(Split(s)) == s
  {
    if s == [] {
    } else {
      JoinSplit(s[1..]);
      var r := Split(s[1..]);
      if s[0] == DOT {
        assert Split(s)[1..] == r;
        assert Join(Split(s)) == [] + [DOT] + Join(r);
      } else if |r| > 1 {
        assert Split(s)[1..] == r[1..];
        assert Join(Split(s)) == [s[0]] + r[0] + [DOT] + Join(r[1..]);
      }
    }
  }

  lemma {:induction false} SplitDotless(s: bytes)
    ensures forall l <- Split(s) :: DOT !in l
  {
    if s == [] {
    } else {
      SplitDotless(s[1..]);
    }
  }

  lemma {:induction false} SplitNoDots(s: bytes)
    requires DOT !in s
    ensures Split(s) == [s]
  {
    if s == [] {
    } else {
      SplitNoDots(s[1..]);
      assert [s[0]] + s[1..] == s;
    }
  }

  lemma {:induction false} SplitCons(l: bytes, s: bytes)
    requires DOT !in l
    ensures Split(l + [DOT] + s) == [l] + Split(s)
  {
    var t := l + [DOT] + s;
    if l == [] {
      assert t[1..] == s;
    } else {
      SplitCons(l[1..], s);
      assert t[1..] == l[1..] + [DOT] + s;
      assert [l[0]] + l[1..] == l;
      assert ([l[1..]] + Split(s))[1..] == Split(s);
    }
  }

  lemma {:induction false} SplitJoin(ls: seq<bytes>)
    requires |ls| >= 1 && forall l <- ls :: DOT !in l
    ensures Split(Join(ls)) == ls
  {
    if |ls| == 1 {
      SplitNoDots(ls[0]);
    } else {
      SplitJoin(ls[1..]);
      SplitCons(ls[0], Join(ls[1..]));
    }
  }

  lemma {:induction false} SplitCat(a: bytes, b: bytes)
    ensures Split(a + [DOT] + b) == Split(a) + Split(b)
  {
    var t := a + [DOT] + b;
    if a == [] {
      assert t[1..] == b;
    } else {
      SplitCat(a[1..], b);
      assert t[1..] == a[1..] + [DOT] + b && t[0] == a[0];
    }
  }

  /** Cutting a name behind one of its dots cuts its label list. */
  lemma SplitAtDot(s: bytes, i: nat)
    requires i < |s| && s[i] == DOT
    ensures Split(s) == Split(s[..i]) + Split(s[i + 1..])
  {
    assert s == s[..i] + [DOT] + s[i + 1..];
    SplitCat(s[..i], s[i + 1..]);
  }

  /** The whole-label suffixes are exactly the names whose label list is a
      suffix of the other's label list. */
  lemma {:induction false} SuffixIsLabelSuffix(s: bytes, q: bytes)
    ensures IsDomainSuffix(s, q) <==>
            |Split(s)| <= |Split(q)| && Split(q)[|Split(q)| - |Split(s)|..] == Split(s)
  {
    var S, Q := Split(s), Split(q);
    if IsDomainSuffix(s, q) {
      if s != q { SplitAtDot(q, |q| - |s| - 1); }
    }
    if |S| <= |Q| && Q[|Q| - |S|..] == S {
      JoinSplit(s);
      JoinSplit(q);
      var k := |Q| - |S|;
      if k > 0 {
        JoinConcat(Q[..k], S);
        assert Q == Q[..k] + S;
      }
    }
  }

  lemma {:induction false} JoinConcat(a: seq<bytes>, b: seq<bytes>)
    requires |a| >= 1 && |b| >= 1
    ensures Join(a + b) == Join(a) + [DOT] + Join(b)
  {
    if |a| == 1 {
      assert (a + b)[1..] == b;
    } else {
      JoinConcat(a[1..], b);
      assert (a + b)[1..] == a[1..] + b;
    }
  }

  /** The suffix of `q` that consists of its last `l` labels, or all of `q` if it has fewer. */
  function Tail(q: bytes, l: nat): (t: bytes)
    requires l >= 1
    ensures |t| <= |q|
  {
    if |Split(q)| <= l then q else Tail(q[1..], l)
  }

  /** Without its first byte a name has lost an empty label, or a byte of its first. */
  lemma SplitRest(q: bytes)
    ensures q == [] ==> |Split(q)| == 1
    ensures q != [] && q[0] == DOT ==> Split(q)[1..] == Split(q[1..])
    ensures q != [] && q[0] != DOT ==> |Split(q)| == |Split(q[1..])| && Split(q)[1..] == Split(q[1..])[1..]
  {
  }

  lemma {:induction false} TailIs(q: bytes, l: nat)
    requires l >= 1
    ensures var Q := Split(q);
            Split(Tail(q, l)) == if |Q| <= l then Q else Q[|Q| - l..]
  {
    hide Split;
    SplitRest(q);
    if |Split(q)| <= l {
    } else {
      TailIs(q[1..], l);
      LastOnes(Split(q), Split(q[1..]), l);
    }
  }

  lemma LastOnes(Q: seq<bytes>, R: seq<bytes>, l: nat)
    requires 1 <= l < |Q| && (Q[1..] == R || (|Q| == |R| && Q[1..] == R[1..]))
    ensures Q[|Q| - l..] == if |R| <= l then R else R[|R| - l..]
  {
    var n := |Q| - l;
    assert Q[n..] == Q[1..][n - 1..];
    if |Q| == |R| { assert R[n..] == R[1..][n - 1..]; }
  }

  lemma TailIsSuffix(q: bytes, l: nat)
    requires l >= 1
    ensures IsDomainSuffix(Tail(q, l), q)
  {
    TailIs(q, l);
    SuffixIsLabelSuffix(Tail(q, l), q);
  }

  /** The last `l` labels start behind the dot that has `l - 1` dots to its right. */
  lemma {:induction false} TailAt(q: bytes, i: nat)
    requires i < |q| && q[i] == DOT
    ensures Tail(q, |Split(q[i + 1..])|) == q[i + 1..]
  {
    SplitAtDot(q, i);
    var l := |Split(q[i + 1..])|;
    if i == 0 {
      assert Tail(q[1..], l) == q[1..];
    } else {
      TailAt(q[1..], i - 1);
      assert q[1..][i..] == q[i + 1..];
    }
  }

  /** A whole-label suffix is the tail with as many labels. */
  lemma SuffixIsTail(s: bytes, q: bytes)
    requires IsDomainSuffix(s, q)
    ensures |Split(s)| <= |Split(q)| && Tail(q, |Split(s)|) == s
  {
    SuffixIsLabelSuffix(s, q);
    if s != q {
      assert q[|q| - |s| - 1 + 1..] == s;
      TailAt(q, |q| - |s| - 1);
    }
  }

  lemma {:induction false} TailLonger(q: bytes, l: nat, k: nat)
    requires 1 <= l < k <= |Split(q)|
    ensures |Tail(q, l)| < |Tail(q, k)|
  {
    if |Split(q)| == k {
    } else {
      TailLonger(q[1..], l, k);
    }
  }

  /** The labels of a name and of the rest `t` of it behind some position: the
      last ones agree, the first one of `t` may have lost its beginning. */
  ghost predicate EndsWith(S: seq<bytes>, T: seq<bytes>) {
    && 1 <= |T| <= |S| && |S[|S| - |T|]| >= |T[0]|
    && forall j :: 1 <= j < |T| ==> T[j] == S[|S| - |T| + j]
  }

  lemma {:induction false} SplitSuffix(p: bytes, t: bytes)
    ensures EndsWith(Split(p + t), Split(t))
  {
    if p == [] {
      assert p + t == t;
    } else {
      SplitSuffix(p[1..], t);
      assert (p + t)[1..] == p[1..] + t;
      EndsWithMore(Split(p[1..] + t), Split(t), p[0]);
    }
  }

  lemma EndsWithMore(R: seq<bytes>, T: seq<bytes>, c: byte)
    requires EndsWith(R, T)
    ensures EndsWith([[]] + R, T) && EndsWith(R[0 := [c] + R[0]], T)
  {
  }
}
