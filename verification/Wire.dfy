/** Bytes, little-endian integers and padded strings, the framing shared by the NAR writer
    (iroh-nix/src/nar.rs), the CommonProto helpers (iroh-nix/src/nix_protocol.rs) and the export stream
    (iroh-nix/src/http_cache.rs).
 */
module Wire {
  import Bits

  type Byte = b: int | 0 <= b < 256

  const U64: int := 0x1_0000_0000_0000_0000

  /** A byte string whose length fits in 64 bits, as every in-memory buffer and file size does. */
  type Bytes = s: seq<Byte> | |s| < U64

  // --- UTF-8 ------------------------------------------------------------------------------------------------

  predicate Continuation(b: Byte) { 0x80 <= b <= 0xBF }

  /** The length of the well-formed UTF-8 sequence at the front, or 0 (Table 3-7 of the Unicode Standard). */
  function Utf8Head(s: seq<Byte>): nat {
    if s == [] then 0
    else if s[0] <= 0x7F then 1
    else if 0xC2 <= s[0] <= 0xDF && |s| >= 2 && Continuation(s[1]) then 2
    else if 0xE0 <= s[0] <= 0xEF && |s| >= 3 && Continuation(s[1]) && Continuation(s[2])
            && (s[0] == 0xE0 ==> s[1] >= 0xA0) && (s[0] == 0xED ==> s[1] <= 0x9F) then 3
    else if 0xF0 <= s[0] <= 0xF4 && |s| >= 4 && Continuation(s[1]) && Continuation(s[2]) && Continuation(s[3])
            && (s[0] == 0xF0 ==> s[1] >= 0x90) && (s[0] == 0xF4 ==> s[1] <= 0x8F) then 4
    else 0
  }

  predicate ValidUtf8(s: seq<Byte>) {
    s == [] || (0 < Utf8Head(s) <= |s| && ValidUtf8(s[Utf8Head(s)..]))
  }

  /** Unicode scalar values: code points that are not surrogates. */
  predicate Scalar(c: nat) { c < 0xD800 || 0xE000 <= c < 0x110000 }

  /** Section 3 of RFC 3629. */
  function Utf8Char(c: nat): seq<Byte>
    requires Scalar(c)
  {
    if c < 0x80 then [c]
    else if c < 0x800 then [0xC0 + c / 64, 0x80 + c % 64]
    else if c < 0x10000 then [0xE0 + c / 4096, 0x80 + c / 64 % 64, 0x80 + c % 64]
    else [0xF0 + c / 262144, 0x80 + c / 4096 % 64, 0x80 + c / 64 % 64, 0x80 + c % 64]
  }

  ghost predicate AllScalars(cs: seq<nat>) { forall i :: 0 <= i < |cs| ==> Scalar(cs[i]) }

  function Utf8Text(cs: seq<nat>): seq<Byte>
    requires AllScalars(cs)
  {
    if cs == [] then [] else Utf8Char(cs[0]) + Utf8Text(cs[1..])
  }

  lemma HeadOfChar(c: nat, rest: seq<Byte>)
    requires Scalar(c)
    ensures Utf8Head(Utf8Char(c) + rest) == |Utf8Char(c)|
  {
  }

  lemma CharOfHead(s: seq<Byte>) returns (c: nat)
    requires Utf8Head(s) > 0
    ensures Utf8Head(s) <= |s| && Scalar(c) && Utf8Char(c) == s[..Utf8Head(s)]
  {
    var n, x: nat := Utf8Head(s), s[0];
    if n == 1 {
      c := x;
    } else if n == 2 {
      c := TwoBytes(x, s[1]);
    } else if n == 3 {
      c := ThreeBytes(x, s[1], s[2]);
    } else {
      c := FourBytes(x, s[1], s[2], s[3]);
    }
    assert |Utf8Char(c)| == n && forall i :: 0 <= i < n ==> Utf8Char(c)[i] == s[i];
  }

  lemma TwoBytes(x: nat, y: nat) returns (c: nat)
    requires 0xC2 <= x <= 0xDF && 0x80 <= y <= 0xBF
    ensures 0x80 <= c < 0x800 && c / 64 == x - 0xC0 && c % 64 == y - 0x80
  {
    c := 64 * (x - 0xC0) + (y - 0x80);
  }

  lemma ThreeBytes(x: nat, y: nat, z: nat) returns (c: nat)
    requires 0xE0 <= x <= 0xEF && 0x80 <= y <= 0xBF && 0x80 <= z <= 0xBF && (x == 0xE0 ==> y >= 0xA0) && (x == 0xED ==> y <= 0x9F)
    ensures 0x800 <= c < 0x10000 && Scalar(c) && c / 4096 == x - 0xE0 && c / 64 % 64 == y - 0x80 && c % 64 == z - 0x80
  {
    c := 4096 * (x - 0xE0) + 64 * (y - 0x80) + (z - 0x80);
    assert c / 64 == 64 * (x - 0xE0) + (y - 0x80);
  }

  lemma FourBytes(x: nat, y: nat, z: nat, w: nat) returns (c: nat)
    requires 0xF0 <= x <= 0xF4 && 0x80 <= y <= 0xBF && 0x80 <= z <= 0xBF && 0x80 <= w <= 0xBF
    requires (x == 0xF0 ==> y >= 0x90) && (x == 0xF4 ==> y <= 0x8F)
    ensures 0x10000 <= c < 0x110000 && c / 262144 == x - 0xF0 && c / 4096 % 64 == y - 0x80 && c / 64 % 64 == z - 0x80 && c % 64 == w - 0x80
  {
    c := 262144 * (x - 0xF0) + 4096 * (y - 0x80) + 64 * (z - 0x80) + (w - 0x80);
    assert c / 64 == 4096 * (x - 0xF0) + 64 * (y - 0x80) + (z - 0x80);
    assert c / 4096 == 64 * (x - 0xF0) + (y - 0x80);
  }

  /** The check accepts exactly the encodings of sequences of scalar values. */
  lemma {:induction false} ValidUtf8Exactly(s: seq<Byte>)
    ensures ValidUtf8(s) <==> exists cs :: AllScalars(cs) && s == Utf8Text(cs)
    decreases |s|
  {
    hide Utf8Head, Utf8Char, Scalar;
    if ValidUtf8(s) { var cs := Decoded(s); }
    if cs :| AllScalars(cs) && s == Utf8Text(cs) { EncodedIsValid(cs); }
  }

  lemma {:induction false} Decoded(s: seq<Byte>) returns (cs: seq<nat>)
    requires ValidUtf8(s)
    ensures AllScalars(cs) && s == Utf8Text(cs)
    decreases |s|
  {
    hide Utf8Head, Utf8Char, Scalar;
    if s == [] {
      cs := [];
    } else {
      var c := CharOfHead(s);
      var rest := Decoded(s[Utf8Head(s)..]);
      cs := [c] + rest;
      assert cs[1..] == rest && s == s[..Utf8Head(s)] + s[Utf8Head(s)..];
    }
  }

  lemma {:induction false} EncodedIsValid(cs: seq<nat>)
    requires AllScalars(cs)
    ensures ValidUtf8(Utf8Text(cs))
  {
    hide Utf8Head, Utf8Char;
    if cs != [] {
      EncodedIsValid(cs[1..]);
      HeadOfChar(cs[0], Utf8Text(cs[1..]));
      CharNotEmpty(cs[0]);
      assert (Utf8Char(cs[0]) + Utf8Text(cs[1..]))[|Utf8Char(cs[0])|..] == Utf8Text(cs[1..]);
    }
  }

  lemma CharNotEmpty(c: nat)
    requires Scalar(c)
    ensures 1 <= |Utf8Char(c)| <= 4
  {
  }

  // --- Little-endian integers -----------------------------------------------------------------------

  function Pow256(k: nat): (r: nat)
    ensures r > 0
  {
    if k == 0 then 1 else 256 * Pow256(k - 1)
  }

  /** The low `k` bytes of `n`, least significant first. */
  function LE(n: nat, k: nat): (r: seq<Byte>)
    ensures |r| == k
  {
    if k == 0 then [] else [n % 256] + LE(n / 256, k - 1)
  }

  function FromLE(s: seq<Byte>): (n: nat)
    ensures n < Pow256(|s|)
  {
    if s == [] then 0 else s[0] + 256 * FromLE(s[1..])
  }

  lemma {:induction false} FromLEInvertsLE(n: nat, k: nat)
    requires n < Pow256(k)
    ensures FromLE(LE(n, k)) == n
  {
    if k > 0 {
      assert n / 256 < Pow256(k - 1);
      FromLEInvertsLE(n / 256, k - 1);
      assert LE(n, k)[1..] == LE(n / 256, k - 1);
    }
  }

  lemma {:induction false} LEInvertsFromLE(s: seq<Byte>)
    ensures LE(FromLE(s), |s|) == s
  {
    if s != [] {
      var tail := FromLE(s[1..]);
      LEInvertsFromLE(s[1..]);
      assert (s[0] + 256 * tail) % 256 == s[0] && (s[0] + 256 * tail) / 256 == tail;
    }
  }

  /** Byte i of the encoding has the weight 256^i. */
  lemma {:induction false} LEByte(n: nat, k: nat, i: nat)
    requires i < k
    ensures LE(n, k)[i] == n / Pow256(i) % 256
    decreases i
  {
    if i > 0 {
      LEByte(n / 256, k - 1, i - 1);
      Bits.DivideTwice(n, 256, Pow256(i - 1));
    } else {
      assert Pow256(0) == 1 && n / 1 == n;
    }
  }

  lemma Pow256Eight()
    ensures Pow256(4) == 0x1_0000_0000 && Pow256(8) == U64
  {
    assert Pow256(4) == 256 * (256 * (256 * (256 * Pow256(0))));
    assert Pow256(8) == 256 * (256 * (256 * (256 * Pow256(4))));
  }

  function U64Bytes(n: nat): seq<Byte> { LE(n, 8) }

  // --- Padded strings -----------------------------------------------------------------------------------

  function Padding(n: nat): (p: nat)
    ensures p < 8
  {
    (8 - n % 8) % 8
  }

  lemma PaddingAligns(n: nat)
    ensures (8 + n + Padding(n)) % 8 == 0
  {
  }

  function Zeros(n: nat): (z: seq<Byte>)
    ensures |z| == n
  {
    seq(n, _ => 0)
  }

  /** Length, data, zeros up to a multiple of eight. */
  function Padded(s: Bytes): (r: seq<Byte>)
    ensures |r| == 8 + |s| + Padding(|s|)
  {
    U64Bytes(|s|) + s + Zeros(Padding(|s|))
  }

  /** The layout, byte by byte: the length with weights 256^i, the data, and the fewest zeros that make the total
      a multiple of eight. */
  lemma PaddedLayout(s: Bytes)
    ensures forall i :: 0 <= i < 8 ==> Padded(s)[i] == |s| / Pow256(i) % 256
    ensures Padded(s)[8..8 + |s|] == s
    ensures forall i :: 8 + |s| <= i < |Padded(s)| ==> Padded(s)[i] == 0
    ensures |Padded(s)| % 8 == 0 && |Padded(s)| < 8 + |s| + 8
  {
    hide LE, Pow256;
    PaddingAligns(|s|);
    forall i | 0 <= i < 8 ensures Padded(s)[i] == |s| / Pow256(i) % 256 {
      LEByte(|s|, 8, i);
      assert Padded(s)[i] == U64Bytes(|s|)[i];
    }
  }

  datatype Read<+T> = Fail | Got(value: T, rest: seq<Byte>)

  function ReadU64(b: seq<Byte>): Read<nat> {
    if |b| < 8 then Fail else Got(FromLE(b[..8]), b[8..])
  }

  lemma ReadsU64(n: nat, rest: seq<Byte>)
    requires n < U64
    ensures ReadU64(U64Bytes(n) + rest) == Got(n, rest)
  {
    Pow256Eight();
    FromLEInvertsLE(n, 8);
    assert (U64Bytes(n) + rest)[..8] == U64Bytes(n) && (U64Bytes(n) + rest)[8..] == rest;
  }

  lemma ReadU64Exact(b: seq<Byte>, n: nat, rest: seq<Byte>)
    requires n < U64
    ensures ReadU64(b) == Got(n, rest) <==> b == U64Bytes(n) + rest
  {
    ReadsU64(n, rest);
    if ReadU64(b) == Got(n, rest) {
      LEInvertsFromLE(b[..8]);
      assert b == b[..8] + b[8..];
    }
  }

  /** A strict reader: the padding must be zero. */
  function ReadPadded(b: seq<Byte>): (r: Read<seq<Byte>>)
    ensures r.Got? ==> |r.value| < U64 && |r.rest| < |b|
  {
    match ReadU64(b)
    case Fail => Fail
    case Got(n, tail) =>
      Pow256Eight();
      if |tail| < n + Padding(n) || tail[n..n + Padding(n)] != Zeros(Padding(n)) then Fail
      else Got(tail[..n], tail[n + Padding(n)..])
  }

  /** The strict reader accepts exactly the padded strings, with any bytes after them. */
  lemma ReadPaddedExact(b: seq<Byte>, s: Bytes, rest: seq<Byte>)
    ensures ReadPadded(b) == Got(s, rest) <==> b == Padded(s) + rest
  {
    hide ReadPadded, Padded;
    if b == Padded(s) + rest { ReadsPadded(s, rest); }
    if ReadPadded(b) == Got(s, rest) { ReadWasPadded(b, s, rest); }
  }

  lemma ReadsPadded(s: Bytes, rest: seq<Byte>)
    ensures ReadPadded(Padded(s) + rest) == Got(s, rest)
  {
    hide Padding, LE, FromLE, Pow256;
    Pow256Eight();
    var p := Padding(|s|);
    var tail := s + Zeros(p) + rest;
    assert Padded(s) + rest == U64Bytes(|s|) + tail;
    ReadsU64(|s|, tail);
    assert tail[|s|..|s| + p] == Zeros(p) && tail[..|s|] == s && tail[|s| + p..] == rest;
  }

  lemma ReadWasPadded(b: seq<Byte>, s: Bytes, rest: seq<Byte>)
    requires ReadPadded(b) == Got(s, rest)
    ensures b == Padded(s) + rest
  {
    hide Padding, LE, FromLE, Pow256;
    Pow256Eight();
    var p := Padding(|s|);
    var tail := ReadU64(b).rest;
    ThreeParts(tail, |s|, p);
    ReadU64Exact(b, |s|, tail);
    assert U64Bytes(|s|) + (s + Zeros(p) + rest) == U64Bytes(|s|) + s + Zeros(p) + rest;
  }

  lemma ThreeParts(t: seq<Byte>, n: nat, p: nat)
    requires n + p <= |t|
    ensures t == t[..n] + t[n..n + p] + t[n + p..]
  {
  }

  /** The bytes of ASCII text. */
  function AsciiBytes(s: string): seq<Byte>
    requires forall i :: 0 <= i < |s| ==> s[i] as int < 128
  {
    seq(|s|, i requires 0 <= i < |s| => s[i] as int)
  }

  // --- Streams of padded strings ------------------------------------------------------------------------

  datatype Tokens = Nil | Cons(head: Bytes, tail: Tokens)

  function Append(a: Tokens, b: Tokens): Tokens {
    match a
    case Nil => b
    case Cons(h, t) => Cons(h, Append(t, b))
  }

  function Frame(ts: Tokens): seq<Byte> {
    match ts
    case Nil => []
    case Cons(h, t) => Padded(h) + Frame(t)
  }

  lemma {:induction false} FrameAligned(ts: Tokens)
    ensures |Frame(ts)| % 8 == 0
  {
    match ts
    case Nil =>
    case Cons(h, t) =>
      hide Padding;
      FrameAligned(t);
      PaddingAligns(|h|);
      AlignedSum(|Padded(h)|, |Frame(t)|);
  }

  lemma AlignedSum(a: nat, b: nat)
    requires a % 8 == 0 && b % 8 == 0
    ensures (a + b) % 8 == 0
  {
  }

  lemma {:induction false} FrameAppend(a: Tokens, b: Tokens)
    ensures Frame(Append(a, b)) == Frame(a) + Frame(b)
  {
    match a
    case Nil =>
    case Cons(h, t) =>
      hide Padded;
      FrameAppend(t, b);
      assert Padded(h) + (Frame(t) + Frame(b)) == Padded(h) + Frame(t) + Frame(b);
  }

  /** The padded strings at the front of a byte string, as many as there are, and what follows them. */
  function Tokenize(b: seq<Byte>): Tokens
    decreases |b|
  {
    match ReadPadded(b)
    case Fail => Nil
    case Got(s, rest) => Cons(s, Tokenize(rest))
  }

  function Leftover(b: seq<Byte>): seq<Byte>
    decreases |b|
  {
    match ReadPadded(b)
    case Fail => b
    case Got(_, rest) => Leftover(rest)
  }

  lemma {:induction false} TokenizeFrames(ts: Tokens, b: seq<Byte>)
    ensures Tokenize(Frame(ts) + b) == Append(ts, Tokenize(b))
    ensures Leftover(Frame(ts) + b) == Leftover(b)
  {
    hide Padded, ReadPadded;
    match ts
    case Nil =>
      assert Frame(ts) + b == b;
    case Cons(h, t) =>
      var tail := Frame(t) + b;
      assert Frame(ts) + b == Padded(h) + tail;
      ReadPaddedExact(Frame(ts) + b, h, tail);
      TokenizeFrames(t, b);
  }

  lemma {:induction false} FrameInvertsTokenize(b: seq<Byte>)
    ensures Frame(Tokenize(b)) + Leftover(b) == b
    decreases |b|
  {
    hide Padded, ReadPadded;
    var r := ReadPadded(b);
    if r.Got? {
      FrameInvertsTokenize(r.rest);
      ReadPaddedExact(b, r.value, r.rest);
      assert Padded(r.value) + Frame(Tokenize(r.rest)) + Leftover(r.rest)
             == Padded(r.value) + (Frame(Tokenize(r.rest)) + Leftover(r.rest));
    }
  }
}
