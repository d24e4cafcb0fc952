/** Domain names on the wire (section 3.1 of RFC 1035) and in text form. */
module DnsName {
  import opened Bytes
  import opened Labels

  const NAME_WIRE_MINLEN := 1
  const NAME_WIRE_MAXLEN := 255

  /** A label behind its length. */
  function Labeled(l: bytes): (r: bytes)
    requires GoodLabel(l)
    ensures |r| == |l| + 1
  {
    [|l|] + l
  }

  /** Each label behind its length. */
  function WireLabels(ls: seq<bytes>): bytes
    requires GoodLabels(ls)
  {
    if ls == [] then []
    else
      var l := ls[|ls| - 1];
      assert GoodLabel(l);
      WireLabels(ls[..|ls| - 1]) + Labeled(l)
  }

  /** A name as it stands in a message. */
  function Wire(ls: seq<bytes>): bytes
    requires GoodLabels(ls)
  {
    WireLabels(ls) + [0]
  }

  /** The text names that have a wire form. */
  predicate Encodable(text: bytes) { GoodLabels(Split(text)) && |text| <= NAME_MAXLEN }

  /** The labels that stand in `s` from `i` to its end. */
  function Parse(s: bytes, i: nat): Option<seq<bytes>>
    requires i <= |s|
    decreases |s| - i
  {
    if i == |s| then Some([])
    else if !(1 <= s[i] <= LABEL_MAXLEN) || i + 1 + s[i] as int > |s| then None
    else
      var rest := Parse(s, i + 1 + s[i] as int);
      if rest.None? then None else Some([s[i + 1..i + 1 + s[i] as int]] + rest.value)
  }

  // ---------------------------------------------------------------- facts about the encoding

  lemma WireNone()
    ensures WireLabels([]) == []
  {
  }

  lemma WireStep(ls: seq<bytes>, l: bytes)
    requires GoodLabels(ls) && GoodLabel(l)
    ensures GoodLabels(ls + [l]) && WireLabels(ls + [l]) == WireLabels(ls) + Labeled(l)
  {
    assert (ls + [l])[..|ls|] == ls;
  }

  lemma {:induction false} WireAppend(ls: seq<bytes>, ms: seq<bytes>)
    requires GoodLabels(ls) && GoodLabels(ms)
    ensures GoodLabels(ls + ms) && WireLabels(ls + ms) == WireLabels(ls) + WireLabels(ms)
    decreases |ms|
  {
    hide Labeled;
    if ms == [] {
      assert ls + ms == ls;
    } else {
      var n := |ms| - 1;
      WireAppend(ls, ms[..n]);
      assert ls + ms == (ls + ms[..n]) + [ms[n]];
      WireStep(ls + ms[..n], ms[n]);
      Assoc(WireLabels(ls), WireLabels(ms[..n]), Labeled(ms[n]));
    }
  }

  /** The wire form of a label list is read back as that list, behind any prefix. */
  lemma {:induction false} ParseWire(p: bytes, ls: seq<bytes>)
    requires GoodLabels(ls)
    ensures Parse(p + WireLabels(ls), |p|) == Some(ls)
    decreases |ls|
  {
    hide WireLabels;
    hide Labeled;
    hide Parse;
    if ls == [] {
      WireNone();
      ParseEnd(p);
      assert p + [] == p;
    } else {
      var l, rest := ls[0], ls[1..];
      assert ls == [l] + rest;
      WireFront(l, rest);
      ParseWire(p + Labeled(l), rest);
      ParseOne(p, l, WireLabels(rest));
    }
  }

  lemma WireFront(l: bytes, rest: seq<bytes>)
    requires GoodLabel(l) && GoodLabels(rest)
    ensures GoodLabels([l] + rest) && WireLabels([l] + rest) == Labeled(l) + WireLabels(rest)
    ensures forall p: bytes :: p + WireLabels([l] + rest) == p + Labeled(l) + WireLabels(rest)
  {
    hide Labeled;
    WireNone();
    WireStep([], l);
    assert [] + [l] == [l] && [] + Labeled(l) == Labeled(l);
    WireAppend([l], rest);
  }

  lemma ParseEnd(p: bytes)
    ensures Parse(p, |p|) == Some([])
  {
  }

  /** The first label is read, then the rest. */
  lemma ParseOne(p: bytes, l: bytes, rest: bytes)
    requires GoodLabel(l) && Parse(p + Labeled(l) + rest, |p| + 1 + |l|).Some?
    ensures Parse(p + Labeled(l) + rest, |p|) == Some([l] + Parse(p + Labeled(l) + rest, |p| + 1 + |l|).value)
  {
    var s := p + Labeled(l) + rest;
    assert s[|p|] == |l| && s[|p| + 1..|p| + 1 + |l|] == l;
  }

  /** Whatever is read as labels is their wire form. */
  lemma {:induction false} ParseExact(s: bytes, i: nat)
    requires i <= |s| && Parse(s, i).Some?
    ensures GoodLabels(Parse(s, i).value) && s[i..] == WireLabels(Parse(s, i).value)
    decreases |s| - i
  {
    if i == |s| {
    } else {
      var j := i + 1 + s[i] as int;
      var l := s[i + 1..j];
      ParseExact(s, j);
      WireStep([], l);
      assert [] + [l] == [l];
      WireAppend([l], Parse(s, j).value);
      assert s[i..] == Labeled(l) + s[j..];
    }
  }

  lemma {:induction false} JoinLength(ls: seq<bytes>)
    requires GoodLabels(ls) && |ls| >= 1
    ensures |WireLabels(ls)| == |Join(ls)| + 1
    decreases |ls|
  {
    var n := |ls| - 1;
    assert ls == ls[..n] + [ls[n]];
    if n == 0 {
    } else {
      JoinLength(ls[..n]);
      JoinConcat(ls[..n], [ls[n]]);
    }
  }

  // ---------------------------------------------------------------- conversions

  /** dns_ascii_to_wire: 0 when the name has no wire form. */
  method AsciiToWire(text: bytes, buf: array<byte>) returns (n: nat, level: nat)
    requires buf.Length == NAME_WIRE_MAXLEN
    modifies buf
    ensures n > 0 <==> Encodable(text)
    ensures n > 0 ==> n == |text| + 2 <= buf.Length && buf[..n] == Wire(Split(text)) && level == |Split(text)|
  {
    hide Split;
    hide WireLabels;
    hide Labeled;
    WireNone();
    n, level := 0, 0;
    var start := 0;
    ghost var done: seq<bytes> := [];
    assert text[0..] == text && [] + Split(text) == Split(text);
    while true
      invariant start <= |text| && n == start && level == |done| && n <= buf.Length
      invariant GoodLabels(done) && Split(text) == done + Split(text[start..]) && buf[..n] == WireLabels(done)
      decreases |text| - start
    {
      var end := FindDot(text, start);
      ghost var l := text[start..end];
      NextLabel(text, start, end);
      var len := end - start;
      if len < 1 || len > LABEL_MAXLEN {
        assert !GoodLabel(l) && l == Split(text)[|done|];
        return 0, level;
      }
      if n + 1 + len > NAME_WIRE_MAXLEN { return 0, level; }
      PutLabel(buf, n, text[start..end]);
      WireStep(done, l);
      done := done + [l];
      n := n + 1 + len;
      level := level + 1;
      if end == |text| { break; }
      start := end + 1;
    }
    assert done == Split(text);
    if n + 1 > NAME_WIRE_MAXLEN { return 0, level; }
    ghost var front := buf[..n];
    buf[n] := 0;
    n := n + 1;
    assert buf[..n] == front + [0];
  }

  /** memchr for the next dot, or the end of the name. */
  method FindDot(text: bytes, start: nat) returns (end: nat)
    requires start <= |text|
    ensures start <= end <= |text| && DOT !in text[start..end] && (end < |text| ==> text[end] == DOT)
  {
    end := start;
    while end < |text| && text[end] != DOT
      invariant start <= end <= |text| && DOT !in text[start..end]
    {
      end := end + 1;
    }
  }

  lemma NextLabel(text: bytes, start: nat, end: nat)
    requires start <= end <= |text| && DOT !in text[start..end] && (end < |text| ==> text[end] == DOT)
    ensures Split(text[start..]) == [text[start..end]] + if end < |text| then Split(text[end + 1..]) else []
  {
    if end == |text| {
      assert text[start..] == text[start..end];
      SplitNoDots(text[start..]);
      assert [text[start..end]] + [] == [text[start..end]];
    } else {
      assert text[start..] == text[start..end] + [DOT] + text[end + 1..];
      SplitCons(text[start..end], text[end + 1..]);
    }
  }

  method PutLabel(buf: array<byte>, n: nat, l: bytes)
    requires GoodLabel(l) && n + 1 + |l| <= buf.Length
    modifies buf
    ensures buf[..n + 1 + |l|] == old(buf[..n]) + Labeled(l)
  {
    buf[n] := |l|;
    forall k | 0 <= k < |l| { buf[n + 1 + k] := l[k]; }
  }

  /** decode_name: the text is what stands in `out` before the copy of the last byte. */
  method DecodeName(out: array<byte>, src: bytes, len: nat) returns (ok: bool)
    requires len <= |src| && len <= NAME_WIRE_MAXLEN && out.Length == NAME_MAXLEN + 1
    modifies out
    ensures len <= NAME_WIRE_MINLEN ==> ok && out[..2] == [DOT, 0]
    ensures len > NAME_WIRE_MINLEN ==> (ok <==> Parse(src[..len - 1], 0).Some?)
    ensures len > NAME_WIRE_MINLEN && ok ==>
              out[..len - 2] == Join(Parse(src[..len - 1], 0).value)
              && out[len - 2] == src[len - 1]
  {
    if len <= NAME_WIRE_MINLEN {
      out[0] := DOT;
      out[1] := 0;
      return true;
    }
    forall k | 0 <= k < len - 1 { out[k] := src[k + 1]; }
    ok := DecodeLabels(out, src, len - 1);
  }

  /** The loop of decode_name: dots take the place of the labels' lengths. */
  method DecodeLabels(out: array<byte>, src: bytes, n: nat) returns (ok: bool)
    requires 1 <= n < |src| && n <= out.Length && Copied(out, src, 0, n)
    modifies out
    ensures ok <==> Parse(src[..n], 0).Some?
    ensures ok ==> out[..n - 1] == Join(Parse(src[..n], 0).value) && out[n - 1] == src[n]
  {
    hide Join;
    ghost var s := src[..n];
    ghost var done: seq<bytes> := [];
    var p := 0; // bytes read; out is one behind
    var left := n;
    NothingDone(Parse(s, 0));
    while left >= 2
      invariant 0 <= p && 0 <= left && p + left == n && (p == 0 <==> done == [])
      invariant Continues(Parse(s, 0), done, Parse(s, p))
      invariant Copied(out, src, if p == 0 then 0 else p - 1, n) && (p > 0 ==> out[..p - 1] == Join(done))
    {
      SetDot(out, src, p, n);
      var labelLen := src[p] as int;
      left := left - 1;
      if labelLen < 1 || labelLen > LABEL_MAXLEN { return false; }
      if labelLen > left { return false; }
      ghost var l := src[p + 1..p + 1 + labelLen];
      NextDone(Parse(s, 0), done, s, p, l);
      OneMoreLabel(done, l);
      TextSoFar(out, src, p, labelLen, n);
      done := done + [l];
      p := p + 1 + labelLen;
      left := left - labelLen;
    }
    ok := left == 0;
    if ok { assert done + [] == done; }
  }

  /** Between two labels a dot takes the place of the second one's length. */
  method SetDot(out: array<byte>, src: bytes, p: nat, n: nat)
    requires p < n < |src| && n <= out.Length && Copied(out, src, if p == 0 then 0 else p - 1, n)
    modifies out
    ensures Copied(out, src, p, n) && out[..p] == if p == 0 then [] else old(out[..p - 1]) + [DOT]
  {
    if p > 0 { out[p - 1] := DOT; }
  }

  /** From `i` on, `out` holds what stands one further in `src`. */
  ghost predicate Copied(out: array<byte>, src: bytes, i: nat, n: nat)
    requires n < |src| && n <= out.Length
    reads out
  {
    forall k :: i <= k < n ==> out[k] == src[k + 1]
  }

  lemma TextSoFar(out: array<byte>, src: bytes, p: nat, n: nat, end: nat)
    requires end < |src| && end <= out.Length && p + n < end && Copied(out, src, p, end)
    ensures out[..p + n] == out[..p] + src[p + 1..p + 1 + n]
  {
    var l := src[p + 1..p + 1 + n];
    assert forall k :: 0 <= k < n ==> out[p + k] == l[k];
  }

  lemma NothingDone(all: Option<seq<bytes>>)
    ensures Continues(all, [], all)
  {
    if all.Some? { assert [] + all.value == all.value; }
  }

  lemma NextDone(all: Option<seq<bytes>>, done: seq<bytes>, s: bytes, p: nat, l: bytes)
    requires p + 1 + |l| <= |s| && GoodLabel(l) && s[p] == |l| && s[p + 1..p + 1 + |l|] == l
    requires Continues(all, done, Parse(s, p))
    ensures Continues(all, done + [l], Parse(s, p + 1 + |l|))
  {
    var rest := Parse(s, p + 1 + |l|);
    if rest.Some? { assert done + ([l] + rest.value) == done + [l] + rest.value; }
  }

  /** The labels of the whole are the `done` ones and then those of the rest. */
  ghost predicate Continues(all: Option<seq<bytes>>, done: seq<bytes>, rest: Option<seq<bytes>>) {
    if rest.None? then all.None? else all == Some(done + rest.value)
  }

  lemma OneMoreLabel(done: seq<bytes>, l: bytes)
    ensures done != [] ==> Join(done + [l]) == Join(done) + [DOT] + l
    ensures done == [] ==> Join(done + [l]) == l
  {
    if done != [] { JoinConcat(done, [l]); }
  }

  // ---------------------------------------------------------------- round trips

  /** Encoding a text name and decoding the result gives the text back. */
  method TextRoundTrip(text: bytes, buf: array<byte>, out: array<byte>) returns (ok: bool)
    requires Encodable(text) && buf.Length == NAME_WIRE_MAXLEN && out.Length == NAME_MAXLEN + 1 && buf != out
    modifies buf, out
    ensures ok && out[..|text|] == text && out[|text|] == 0
  {
    var n, level := AsciiToWire(text, buf);
    var src := buf[..n];
    assert src[..n - 1] == WireLabels(Split(text));
    ParseWire([], Split(text));
    assert [] + WireLabels(Split(text)) == WireLabels(Split(text));
    JoinSplit(text);
    ok := DecodeName(out, src, n);
  }

  /** Decoding a wire name whose labels hold no dot, and encoding the text, gives the same bytes. */
  method WireRoundTrip(ls: seq<bytes>, buf: array<byte>, out: array<byte>) returns (n: nat)
    requires ls != [] && GoodLabels(ls) && |Wire(ls)| <= NAME_WIRE_MAXLEN && forall l <- ls :: DOT !in l
    requires buf.Length == NAME_WIRE_MAXLEN && out.Length == NAME_MAXLEN + 1 && buf != out
    modifies buf, out
    ensures n == |Wire(ls)| && buf[..n] == Wire(ls)
  {
    hide Parse;
    hide Split;
    hide Join;
    hide WireLabels;
    var w := Wire(ls);
    JoinLength(ls);
    assert w[..|w| - 1] == WireLabels(ls) == [] + WireLabels(ls);
    ParseWire([], ls);
    var ok := DecodeName(out, w, |w|);
    assert ok;
    var text := out[..|w| - 2];
    SplitJoin(ls);
    var level;
    n, level := AsciiToWire(text, buf);
  }

  /** Different names have different wire forms. */
  lemma WireInjective(ls: seq<bytes>, ms: seq<bytes>)
    requires GoodLabels(ls) && GoodLabels(ms) && Wire(ls) == Wire(ms)
    ensures ls == ms
  {
    assert WireLabels(ls) == Wire(ls)[..|Wire(ls)| - 1] == WireLabels(ms);
    ParseWire([], ls);
    ParseWire([], ms);
    assert [] + WireLabels(ls) == WireLabels(ls) && [] + WireLabels(ms) == WireLabels(ms);
  }

  // ---------------------------------------------------------------- in plain terms

  /** Labels of 1 to 63 bytes. */
  ghost predicate Short(ls: seq<bytes>) { forall i :: 0 <= i < |ls| ==> 1 <= |ls[i]| <= 63 }

  /** Each label as a byte with its length and then itself. */
  function LabelBytes(ls: seq<bytes>): bytes
    requires Short(ls)
  {
    if ls == [] then [] else [|ls[0]|] + ls[0] + LabelBytes(ls[1..])
  }

  lemma ShortGood(ls: seq<bytes>)
    ensures Short(ls) <==> GoodLabels(ls)
  {
    if GoodLabels(ls) {
      forall i | 0 <= i < |ls| ensures 1 <= |ls[i]| <= 63 { assert ls[i] in ls; }
    }
  }

  /** The wire form of labels. */
  lemma {:induction false} WireIs(ls: seq<bytes>)
    requires Short(ls)
    ensures GoodLabels(ls) && WireLabels(ls) == LabelBytes(ls)
    decreases |ls|
  {
    ShortGood(ls);
    if ls == [] {
    } else {
      WireIs(ls[1..]);
      WireFront(ls[0], ls[1..]);
      assert ls == [ls[0]] + ls[1..];
    }
  }

  /** What is read as labels, and only that, is made of labels. */
  lemma {:induction false} ParseWhen(s: bytes, ls: seq<bytes>)
    ensures Parse(s, 0) == Some(ls) <==> Short(ls) && s == LabelBytes(ls)
  {
    ShortGood(ls);
    if Short(ls) && s == LabelBytes(ls) {
      WireIs(ls);
      ParseWire([], ls);
      assert [] + s == s;
    }
    if Parse(s, 0) == Some(ls) {
      ParseExact(s, 0);
      WireIs(ls);
    }
  }

  /** The text names with a wire form: up to 253 bytes, of labels of 1 to 63 bytes with dots (46) between them. */
  lemma {:induction false} EncodableWhen(text: bytes)
    ensures Encodable(text) <==>
            |text| <= 253 && exists ls :: |ls| >= 1 && Short(ls) && (forall l <- ls :: 46 !in l) && text == Join(ls)
  {
    hide Join;
    hide Split;
    ShortGood(Split(text));
    JoinSplit(text);
    SplitDotless(text);
    if exists ls :: |ls| >= 1 && Short(ls) && (forall l <- ls :: 46 !in l) && text == Join(ls) {
      var ls :| |ls| >= 1 && Short(ls) && (forall l <- ls :: 46 !in l) && text == Join(ls);
      ShortGood(ls);
      SplitJoin(ls);
    }
  }
}
