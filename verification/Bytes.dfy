/** Bytes and the integer encodings the program reads and writes. */
module Bytes {
  type byte = x: int | 0 <= x < 256
  type bytes = seq<byte>
  type u16 = x: int | 0 <= x < 0x1_0000
  type u32 = x: int | 0 <= x < 0x1_0000_0000

  datatype Option<+T> = None | Some(value: T)

  function Max(a: int, b: int): int { if a > b then a else b }

  lemma Assoc<T>(b: seq<T>, c: seq<T>, d: seq<T>)
    ensures b + c + d == b + (c + d)
  {
  }

  /** `idx` are the places, in order, at which `r` stands in `s`. */
  ghost predicate Picks<T>(idx: seq<nat>, r: seq<T>, s: seq<T>) {
    && |idx| == |r| && (forall k :: 0 <= k < |idx| ==> idx[k] < |s| && r[k] == s[idx[k]])
    && forall k, l :: 0 <= k < l < |idx| ==> idx[k] < idx[l]
  }

  /** One more element, which is picked or not. */
  lemma {:induction false} PicksMore<T>(idx: seq<nat>, r: seq<T>, s: seq<T>, x: T, take: bool)
    requires Picks(idx, r, s)
    ensures Picks(if take then idx + [|s|] else idx, if take then r + [x] else r, s + [x])
    ensures |s| !in idx
  {
  }

  /** The places at which something holds that holds of one more element or not. */
  ghost predicate Marks(idx: seq<nat>, marked: seq<bool>) {
    forall i :: 0 <= i < |marked| ==> (i in idx <==> marked[i])
  }

  lemma {:induction false} MarksMore(idx: seq<nat>, marked: seq<bool>)
    requires marked != [] && Marks(idx, marked[..|marked| - 1]) && |marked| - 1 !in idx
    ensures Marks(if marked[|marked| - 1] then idx + [|marked| - 1] else idx, marked)
  {
    var n := |marked| - 1;
    forall i | 0 <= i < n ensures i in idx <==> marked[i] { assert marked[..n][i] == marked[i]; }
  }

  /** Network byte order (DNS messages, nftables flags). */
  function Be16(hi: byte, lo: byte): u16 { hi as int * 256 + lo as int }

  function Be32(a: byte, b: byte, c: byte, d: byte): u32 {
    Be16(a, b) as int * 0x1_0000 + Be16(c, d) as int
  }

  function PutBe16(v: u16): (s: bytes)
    ensures |s| == 2 && Be16(s[0], s[1]) == v
  {
    [v / 256, v % 256]
  }

  function PutBe32(v: u32): (s: bytes)
    ensures |s| == 4 && Be32(s[0], s[1], s[2], s[3]) == v
  {
    PutBe16(v / 0x1_0000) + PutBe16(v % 0x1_0000)
  }

  /** Host byte order: little-endian (netlink headers, the cache dump header). */
  function PutLe16(v: u16): (s: bytes)
    ensures |s| == 2 && Le16(s, 0) == v
  {
    [v % 256, v / 256]
  }

  function PutLe32(v: u32): (s: bytes)
    ensures |s| == 4 && Le32(s, 0) == v
  {
    PutLe16(v % 0x1_0000) + PutLe16(v / 0x1_0000)
  }

  function Le16(s: bytes, i: nat): u16
    requires i + 2 <= |s|
  {
    s[i] as int + s[i + 1] as int * 256
  }

  function Le32(s: bytes, i: nat): u32
    requires i + 4 <= |s|
  {
    Le16(s, i) as int + Le16(s, i + 2) as int * 0x1_0000
  }

  // ---------------------------------------------------------------- digits

  lemma Halves(h: u16, l: u16)
    ensures (h as int * 0x1_0000 + l as int) / 0x1_0000 == h && (h as int * 0x1_0000 + l as int) % 0x1_0000 == l
  {
  }

  lemma Be16Digits(a: byte, b: byte)
    ensures PutBe16(Be16(a, b)) == [a, b]
  {
  }

  lemma Be32Digits(a: byte, b: byte, c: byte, d: byte)
    ensures PutBe32(Be32(a, b, c, d)) == [a, b, c, d]
  {
    hide Be16;
    hide PutBe16;
    Halves(Be16(a, b), Be16(c, d));
    Be16Digits(a, b);
    Be16Digits(c, d);
  }

  lemma Le16Digits(s: bytes, i: nat)
    requires i + 2 <= |s|
    ensures PutLe16(Le16(s, i)) == [s[i], s[i + 1]]
  {
  }

  lemma Le32Digits(s: bytes)
    requires |s| == 4
    ensures PutLe32(Le32(s, 0)) == s
  {
    hide Le16;
    hide PutLe16;
    Halves(Le16(s, 2), Le16(s, 0));
    Le16Digits(s, 0);
    Le16Digits(s, 2);
  }

  /** The lowest `n` bytes of a number, highest first. */
  function Big(v: nat, n: nat): (s: bytes)
    ensures |s| == n
  {
    if n == 0 then [] else Big(v / 256, n - 1) + [v % 256]
  }

  /** The lowest `n` bytes of a number, lowest first. */
  function Little(v: nat, n: nat): (s: bytes)
    ensures |s| == n
  {
    if n == 0 then [] else [v % 256] + Little(v / 256, n - 1)
  }

  lemma {:induction false} Digits16(v: u16)
    ensures PutBe16(v) == Big(v, 2) && PutLe16(v) == Little(v, 2)
  {
    assert Big(v / 256, 1) == Big(v / 256 / 256, 0) + [v / 256 % 256] && Little(v / 256, 1) == [v / 256 % 256] + [];
  }

  lemma {:induction false} Digits32(v: u32)
    ensures PutBe32(v) == Big(v, 4) && PutLe32(v) == Little(v, 4)
  {
    hide PutBe16;
    hide PutLe16;
    var h, l := v / 0x1_0000, v % 0x1_0000;
    Digits16(h);
    Digits16(l);
    Quarters(v);
  }

  /** Four bytes are two halves of two bytes. */
  lemma {:induction false} Quarters(v: u32)
    ensures Big(v, 4) == Big(v / 0x1_0000, 2) + Big(v % 0x1_0000, 2)
    ensures Little(v, 4) == Little(v % 0x1_0000, 2) + Little(v / 0x1_0000, 2)
  {
    var h, l := v / 0x1_0000, v % 0x1_0000;
    assert v / 256 / 256 == h && v % 256 == l % 256 && v / 256 % 256 == l / 256 % 256;
    assert Big(v, 4) == (Big(h, 2) + [l / 256 % 256]) + [l % 256];
    assert Big(l, 2) == (Big(l / 256 / 256, 0) + [l / 256 % 256]) + [l % 256];
    assert Little(v, 4) == [l % 256] + ([l / 256 % 256] + Little(h, 2));
    assert Little(l, 2) == [l % 256] + ([l / 256 % 256] + []);
  }

  /** Two's complement: the C cast from a 32-bit unsigned to a signed integer, and back. */
  function ToI32(x: int): (r: int)
    ensures -0x8000_0000 <= r < 0x8000_0000
  {
    var m := x % 0x1_0000_0000;
    if m < 0x8000_0000 then m else m - 0x1_0000_0000
  }

  function ToU32(x: int): u32 { x % 0x1_0000_0000 }

  // ---------------------------------------------------------------- pieces

  /** n * size */
  function Span(n: nat, size: nat): nat { if n == 0 then 0 else Span(n - 1, size) + size }

  lemma {:induction false} SpanTimes(n: nat, size: nat)
    ensures Span(n, size) == n * size
  {
    if n == 0 {
    } else {
      SpanTimes(n - 1, size);
    }
  }

  lemma {:induction false} SpanMonotone(n: nat, m: nat, size: nat)
    requires n <= m
    ensures Span(n, size) <= Span(m, size)
  {
    if n == m {
    } else {
      SpanMonotone(n, m - 1, size);
    }
  }

  function Concat(cs: seq<bytes>): bytes {
    if cs == [] then [] else Concat(cs[..|cs| - 1]) + cs[|cs| - 1]
  }

  ghost predicate Sized(cs: seq<bytes>, size: nat) { forall i :: 0 <= i < |cs| ==> |cs[i]| == size }

  lemma {:induction false} ConcatSize(cs: seq<bytes>, size: nat)
    requires Sized(cs, size)
    ensures |Concat(cs)| == Span(|cs|, size)
  {
    if cs == [] {
    } else {
      ConcatSize(cs[..|cs| - 1], size);
    }
  }

  lemma {:induction false} ConcatAppend(cs: seq<bytes>, ds: seq<bytes>)
    ensures Concat(cs + ds) == Concat(cs) + Concat(ds)
  {
    if ds == [] {
      assert cs + ds == cs;
    } else {
      assert (cs + ds)[..|cs + ds| - 1] == cs + ds[..|ds| - 1];
      ConcatAppend(cs, ds[..|ds| - 1]);
    }
  }

  /** Where a piece stands among pieces of one size. */
  lemma {:induction false} ConcatAt(cs: seq<bytes>, size: nat, i: nat)
    requires Sized(cs, size) && i < |cs|
    ensures Span(i, size) + size <= |Concat(cs)| && Concat(cs)[Span(i, size)..Span(i, size) + size] == cs[i]
  {
    var front := cs[..|cs| - 1];
    ConcatSize(front, size);
    if i == |cs| - 1 {
    } else {
      ConcatAt(front, size, i);
      SliceLeft(Concat(front), cs[|cs| - 1], Span(i, size), size);
    }
  }

  lemma SliceLeft(b: bytes, c: bytes, i: nat, n: nat)
    requires i + n <= |b|
    ensures (b + c)[i..i + n] == b[i..i + n]
  {
  }
}
